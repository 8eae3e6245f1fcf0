/**
 * get_all_besties: look a user up with a case-insensitive regular expression
 * and return their besties table sorted, stably, by ascending count; and the
 * LIFO extraction of the largest entries that popitem() performs on it.
 */
module Ranking {
  import opened Wrappers
  import opened Text
  import opened BestieTable
  import opened Store

  /**
   * Whether re.compile(pattern, re.IGNORECASE) finds a match in commenter:
   * an unanchored, case-insensitive search, read here for patterns without
   * regular-expression metacharacters, which Reddit user names do not have.
   */
  predicate Matches(pattern: string, commenter: string)
  {
    Contains(Lower(commenter), Lower(pattern))
  }

  /** find_one: the first record, in insertion order, whose commenter matches pattern. */
  function FindOne(db: seq<UserRecord>, pattern: string): (r: Option<nat>)
    ensures r.Some? ==> r.value < |db| && Matches(pattern, db[r.value].commenter)
    ensures r.Some? ==> forall j :: 0 <= j < r.value ==> !Matches(pattern, db[j].commenter)
    ensures r.None? ==> forall j :: 0 <= j < |db| ==> !Matches(pattern, db[j].commenter)
  {
    if db == [] then None
    else if Matches(pattern, db[0].commenter) then Some(0)
    else match FindOne(db[1..], pattern)
      case None =>
        assert forall j :: 1 <= j < |db| ==> db[j] == db[1..][j - 1];
        None
      case Some(k) =>
        assert forall j :: 1 <= j <= k ==> db[j] == db[1..][j - 1];
        Some(k + 1)
  }

  /** Two names equal up to ASCII case always match each other. */
  lemma {:induction false} SameNameMatches(pattern: string, commenter: string)
    requires Lower(pattern) == Lower(commenter)
    ensures Matches(pattern, commenter)
  {
    var l := Lower(commenter);
    assert l[..|l|] == l;
  }

  /** A record whose name equals the query up to case is always found (possibly behind an earlier match). */
  lemma CaseInsensitiveFound(db: seq<UserRecord>, pattern: string, i: nat)
    requires i < |db| && Lower(db[i].commenter) == Lower(pattern)
    ensures FindOne(db, pattern).Some? && FindOne(db, pattern).value <= i
  {
    SameNameMatches(pattern, db[i].commenter);
  }

  /**
   * The search is unanchored: a query for "bob" is answered from an earlier
   * record of "bobby" rather than from the record of "bob" itself.
   */
  lemma EarlierLongerNameWins()
    ensures var db := [UserRecord("bobby", [Entry("carol", 2)]), UserRecord("bob", [Entry("dave", 1)])];
      GetAllBesties(db, "bob") == Some([Entry("carol", 2)])
  {
    assert Lower("bobby") == "bobby";
    assert Lower("bob") == "bob";
    assert OccursAt("bobby", "bob", 0) by {
      assert "bobby"[0..3] == "bob";
    }
    var db := [UserRecord("bobby", [Entry("carol", 2)]), UserRecord("bob", [Entry("dave", 1)])];
    assert Find("bobby", "bob") == Some(0);
    assert Matches("bob", db[0].commenter);
    assert FindOne(db, "bob") == Some(0);
    var t := [Entry("carol", 2)];
    assert t[1..] == [];
    assert SortByCount(t) == t;
  }

  /** Non-decreasing by count. */
  predicate SortedByCount(t: Table)
  {
    forall i, j :: 0 <= i < j < |t| ==> t[i].count <= t[j].count
  }

  /** The entries of t whose count is c, in their order in t. */
  function WithCount(t: Table, c: int): Table
  {
    if t == [] then []
    else (if t[0].count == c then [t[0]] else []) + WithCount(t[1..], c)
  }

  lemma {:induction false} WithCountMembers(t: Table, c: int, e: Entry)
    ensures e in WithCount(t, c) <==> e in t && e.count == c
  {
    if t != [] {
      WithCountMembers(t[1..], c, e);
    }
  }

  /** Every entry of rest, made of t's tail and an entry larger than t's head, counts at least t's head. */
  lemma HeadBelowRest(e: Entry, t: Table, rest: Table)
    requires SortedByCount(t) && t != [] && t[0].count < e.count
    requires multiset(rest) == multiset(t[1..]) + multiset{e}
    ensures forall j :: 0 <= j < |rest| ==> t[0].count <= rest[j].count
  {
    forall j | 0 <= j < |rest| ensures t[0].count <= rest[j].count {
      assert rest[j] in multiset(rest);
      if rest[j] != e {
        assert rest[j] in multiset(t[1..]);
        var k :| 0 <= k < |t[1..]| && t[1..][k] == rest[j];
        assert t[k + 1] == rest[j];
      }
    }
  }

  /** An entry no larger than anything in a sorted table can go in front of it. */
  lemma ConsSorted(x: Entry, rest: Table)
    requires SortedByCount(rest)
    requires forall j :: 0 <= j < |rest| ==> x.count <= rest[j].count
    ensures SortedByCount([x] + rest)
  {
    var r := [x] + rest;
    forall i, j | 0 <= i < j < |r| ensures r[i].count <= r[j].count {
      if i == 0 {
        assert r[j] == rest[j - 1];
      } else {
        assert r[i] == rest[i - 1] && r[j] == rest[j - 1];
      }
    }
  }

  /**
   * Inserts e in front of the first entry whose count is at least e's, so
   * that e stays ahead of the entries with its count.
   */
  function InsertByCount(e: Entry, t: Table): (r: Table)
    requires SortedByCount(t)
    ensures SortedByCount(r)
    ensures multiset(r) == multiset(t) + multiset{e}
  {
    if t == [] || e.count <= t[0].count then [e] + t
    else
      var rest := InsertByCount(e, t[1..]);
      assert t == [t[0]] + t[1..];
      HeadBelowRest(e, t, rest);
      ConsSorted(t[0], rest);
      [t[0]] + rest
  }

  /** sorted(t.items(), key=count), as an insertion sort. */
  function SortByCount(t: Table): (r: Table)
    ensures SortedByCount(r)
    ensures multiset(r) == multiset(t)
  {
    if t == [] then []
    else
      assert t == [t[0]] + t[1..];
      InsertByCount(t[0], SortByCount(t[1..]))
  }

  lemma {:induction false} InsertStable(e: Entry, t: Table, c: int)
    requires SortedByCount(t)
    ensures WithCount(InsertByCount(e, t), c) == WithCount([e] + t, c)
  {
    if !(t == [] || e.count <= t[0].count) {
      var rest := InsertByCount(e, t[1..]);
      InsertStable(e, t[1..], c);
      var h0 := if t[0].count == c then [t[0]] else [];
      var he := if e.count == c then [e] else [];
      assert h0 == [] || he == [];
      assert ([t[0]] + rest)[1..] == rest;
      assert WithCount([t[0]] + rest, c) == h0 + WithCount(rest, c);
      assert ([e] + t[1..])[1..] == t[1..];
      assert WithCount([e] + t[1..], c) == he + WithCount(t[1..], c);
      assert ([e] + t)[1..] == t;
      assert WithCount([e] + t, c) == he + WithCount(t, c);
      assert WithCount(t, c) == h0 + WithCount(t[1..], c);
      assert h0 + (he + WithCount(t[1..], c)) == he + (h0 + WithCount(t[1..], c));
    }
  }

  /**
   * The sort is stable: for every count, the entries with that count come out
   * in the order they were stored in.
   */
  lemma {:induction false} SortStable(t: Table, c: int)
    ensures WithCount(SortByCount(t), c) == WithCount(t, c)
  {
    if t != [] {
      var rest := SortByCount(t[1..]);
      SortStable(t[1..], c);
      InsertStable(t[0], rest, c);
      assert ([t[0]] + rest)[1..] == rest;
    }
  }

  lemma {:induction false} InsertSum(e: Entry, t: Table)
    requires SortedByCount(t)
    ensures Sum(InsertByCount(e, t)) == e.count + Sum(t)
  {
    if !(t == [] || e.count <= t[0].count) {
      InsertSum(e, t[1..]);
    }
  }

  /** The sort keeps the total number of replies. */
  lemma {:induction false} SortSum(t: Table)
    ensures Sum(SortByCount(t)) == Sum(t)
  {
    if t != [] {
      SortSum(t[1..]);
      InsertSum(t[0], SortByCount(t[1..]));
    }
  }

  lemma {:induction false} InsertUnique(e: Entry, t: Table)
    requires SortedByCount(t) && UniqueKeys([e] + t)
    ensures UniqueKeys(InsertByCount(e, t))
  {
    if !(t == [] || e.count <= t[0].count) {
      var rest := InsertByCount(e, t[1..]);
      assert t == [t[0]] + t[1..];
      UniqueKeysTail(e, t);
      UniqueKeysTail(t[0], t[1..]);
      UniqueKeysCons(e, t[1..]);
      InsertUnique(e, t[1..]);
      forall x | x in rest ensures x.partner != t[0].partner {
        assert x in multiset(rest);
      }
      UniqueKeysCons(t[0], rest);
    }
  }

  /** Sorting a dict gives a dict. */
  lemma {:induction false} SortUnique(t: Table)
    requires UniqueKeys(t)
    ensures UniqueKeys(SortByCount(t))
  {
    if t != [] {
      assert t == [t[0]] + t[1..];
      var rest := SortByCount(t[1..]);
      UniqueKeysTail(t[0], t[1..]);
      SortUnique(t[1..]);
      forall x | x in rest ensures x.partner != t[0].partner {
        assert x in multiset(rest);
      }
      UniqueKeysCons(t[0], rest);
      InsertUnique(t[0], rest);
    }
  }

  /** r and t hold, for every count, the same entries in the same order. */
  ghost predicate SameByCount(r: Table, t: Table)
  {
    forall c :: WithCount(r, c) == WithCount(t, c)
  }

  /** In every sorted sequence the first entry has the least count. */
  lemma SortedHeadLeast(t: Table, e: Entry)
    requires SortedByCount(t) && t != [] && e in t
    ensures t[0].count <= e.count
  {
  }

  /** Two sorted sequences that agree on every count's entries start with the same entry. */
  lemma SortedStableHead(r1: Table, r2: Table)
    requires SortedByCount(r1) && SortedByCount(r2) && r1 != [] && r2 != []
    requires SameByCount(r1, r2)
    ensures r1[0] == r2[0]
  {
    var m1, m2 := r1[0].count, r2[0].count;
    assert WithCount(r1, m1) == WithCount(r2, m1);
    assert WithCount(r1, m2) == WithCount(r2, m2);
    WithCountMembers(r1, m1, r1[0]);
    WithCountMembers(r2, m1, r1[0]);
    SortedHeadLeast(r2, r1[0]);
    WithCountMembers(r2, m2, r2[0]);
    WithCountMembers(r1, m2, r2[0]);
    SortedHeadLeast(r1, r2[0]);
    assert m1 == m2;
    assert WithCount(r1, m1)[0] == r1[0];
    assert WithCount(r2, m2)[0] == r2[0];
  }

  /** Sequences that agree on every count's entries and share their head agree on their tails too. */
  lemma WithCountTails(r1: Table, r2: Table, c: int)
    requires r1 != [] && r2 != [] && r1[0] == r2[0]
    requires WithCount(r1, c) == WithCount(r2, c)
    ensures WithCount(r1[1..], c) == WithCount(r2[1..], c)
  {
    var h := if r1[0].count == c then [r1[0]] else [];
    assert WithCount(r1, c) == h + WithCount(r1[1..], c);
    assert WithCount(r2, c) == h + WithCount(r2[1..], c);
    assert (h + WithCount(r1[1..], c))[|h|..] == WithCount(r1[1..], c);
    assert (h + WithCount(r2[1..], c))[|h|..] == WithCount(r2[1..], c);
  }

  lemma WithCountNonEmpty(t: Table)
    requires t != []
    ensures WithCount(t, t[0].count) != []
  {
  }

  /** When one side is empty, agreeing on every count's entries makes the other empty too. */
  lemma SameByCountEmpty(r1: Table, r2: Table)
    requires SameByCount(r1, r2) && (r1 == [] || r2 == [])
    ensures r1 == [] && r2 == []
  {
    if r1 != [] {
      WithCountNonEmpty(r1);
      assert false;
    } else if r2 != [] {
      WithCountNonEmpty(r2);
      assert false;
    }
  }

  lemma SameByCountTails(r1: Table, r2: Table)
    requires r1 != [] && r2 != [] && r1[0] == r2[0] && SameByCount(r1, r2)
    ensures SameByCount(r1[1..], r2[1..])
  {
    forall c ensures WithCount(r1[1..], c) == WithCount(r2[1..], c) {
      assert WithCount(r1, c) == WithCount(r2, c);
      WithCountTails(r1, r2, c);
    }
  }

  lemma SortedTail(t: Table)
    requires SortedByCount(t) && t != []
    ensures SortedByCount(t[1..])
  {
    forall i, j | 0 <= i < j < |t| - 1 ensures t[1..][i].count <= t[1..][j].count {
      assert t[1..][i] == t[i + 1] && t[1..][j] == t[j + 1];
    }
  }

  lemma HeadTailEqual(r1: Table, r2: Table)
    requires r1 != [] && r2 != [] && r1[0] == r2[0] && r1[1..] == r2[1..]
    ensures r1 == r2
  {
    assert r1 == [r1[0]] + r1[1..];
    assert r2 == [r2[0]] + r2[1..];
  }

  /**
   * Stability pins the order down: two sequences that are both sorted by count
   * and agree on the order of the entries of every count are equal. So any
   * stable sort, Python's among them, returns what SortByCount returns.
   */
  lemma {:induction false} SortedStableUnique(r1: Table, r2: Table)
    requires SortedByCount(r1) && SortedByCount(r2)
    requires SameByCount(r1, r2)
    ensures r1 == r2
  {
    if r1 == [] || r2 == [] {
      SameByCountEmpty(r1, r2);
    } else {
      SortedStableHead(r1, r2);
      SameByCountTails(r1, r2);
      SortedTail(r1);
      SortedTail(r2);
      SortedStableUnique(r1[1..], r2[1..]);
      HeadTailEqual(r1, r2);
    }
  }


  /** Any sorted rearrangement of t that keeps equal counts in their order is SortByCount(t). */
  lemma StableSortIsUnique(t: Table, r: Table)
    requires SortedByCount(r)
    requires SameByCount(r, t)
    ensures r == SortByCount(t)
  {
    forall c ensures WithCount(r, c) == WithCount(SortByCount(t), c) {
      assert WithCount(r, c) == WithCount(t, c);
      SortStable(t, c);
    }
    assert SameByCount(r, SortByCount(t));
    SortedStableUnique(r, SortByCount(t));
  }

  /**
   * get_all_besties(user): None where find_one finds no record, and the
   * subscript of None raises; otherwise that record's table, sorted stably by
   * ascending count.
   */
  function GetAllBesties(db: seq<UserRecord>, user: string): (r: Option<Table>)
    ensures r.None? <==> forall j :: 0 <= j < |db| ==> !Matches(user, db[j].commenter)
    ensures r.Some? ==>
      var stored := db[FindOne(db, user).value].besties;
      && r.value == SortByCount(stored)
      && SortedByCount(r.value)
      && multiset(r.value) == multiset(stored)
      && Sum(r.value) == Sum(stored)
      && (UniqueKeys(stored) ==> UniqueKeys(r.value))
  {
    match FindOne(db, user)
    case None => None
    case Some(i) =>
      var stored := db[i].besties;
      SortSum(stored);
      if UniqueKeys(stored) then SortUnique(stored); Some(SortByCount(stored))
      else Some(SortByCount(stored))
  }

  /**
   * The entries that k calls of popitem() take from the end of t, in the
   * order they come out: the last entry first.
   */
  function TopEntries(t: Table, k: nat): (r: Table)
    requires k <= |t|
    ensures |r| == k
  {
    if k == 0 then [] else TopEntries(t, k - 1) + [t[|t| - k]]
  }

  lemma {:induction false} TopEntriesAt(t: Table, k: nat, i: nat)
    requires k <= |t| && i < k
    ensures TopEntries(t, k)[i] == t[|t| - 1 - i]
  {
    if i < k - 1 {
      TopEntriesAt(t, k - 1, i);
    }
  }

  /** The popped entries together with what is left are exactly t. */
  lemma {:induction false} TopEntriesSplit(t: Table, k: nat)
    requires k <= |t|
    ensures multiset(TopEntries(t, k)) + multiset(t[..|t| - k]) == multiset(t)
    ensures Sum(TopEntries(t, k)) + Sum(t[..|t| - k]) == Sum(t)
  {
    if k > 0 {
      TopEntriesSplit(t, k - 1);
      var n := |t|;
      assert t[..n - (k - 1)] == t[..n - k] + [t[n - k]];
      SumAppend(TopEntries(t, k - 1), t[n - k]);
      SumAppend(t[..n - k], t[n - k]);
    } else {
      assert t[..|t|] == t;
    }
  }

  /**
   * Popping k entries off a table sorted by ascending count yields the k
   * largest counts in descending order: the first is a maximum of the whole
   * table, and nothing left behind is larger than anything popped.
   */
  lemma TopEntriesAreLargest(t: Table, k: nat)
    requires SortedByCount(t) && 0 < k <= |t|
    ensures forall i, j :: 0 <= i < j < k ==> TopEntries(t, k)[i].count >= TopEntries(t, k)[j].count
    ensures forall j :: 0 <= j < |t| ==> t[j].count <= TopEntries(t, k)[0].count
    ensures forall j :: 0 <= j < |t| - k ==> t[j].count <= TopEntries(t, k)[k - 1].count
  {
    forall i | 0 <= i < k ensures TopEntries(t, k)[i] == t[|t| - 1 - i] {
      TopEntriesAt(t, k, i);
    }
  }
}
