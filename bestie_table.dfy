/**
 * A user's "besties" table: partner name -> interaction count, kept in
 * insertion order, as a Python dict or a Mongo subdocument keeps it. The
 * order decides how ties fall in the stable sort and which entry popitem()
 * removes.
 */
module BestieTable {
  import opened Wrappers

  datatype Entry = Entry(partner: string, count: int)

  type Table = seq<Entry>

  /** The partner names of a table, in insertion order. */
  function Partners(t: Table): (ks: seq<string>)
    ensures |ks| == |t|
    ensures forall i :: 0 <= i < |t| ==> ks[i] == t[i].partner
  {
    seq(|t|, i requires 0 <= i < |t| => t[i].partner)
  }

  predicate Distinct<T(==)>(s: seq<T>)
  {
    forall i, j :: 0 <= i < j < |s| ==> s[i] != s[j]
  }

  /** A table is a dict: no partner appears twice. */
  predicate UniqueKeys(t: Table)
  {
    Distinct(Partners(t))
  }

  /** Prepending an entry keeps a table a dict when its partner is new. */
  lemma UniqueKeysCons(e: Entry, t: Table)
    requires UniqueKeys(t)
    requires forall x :: x in t ==> x.partner != e.partner
    ensures UniqueKeys([e] + t)
  {
    var r := [e] + t;
    forall i, j | 0 <= i < j < |r| ensures Partners(r)[i] != Partners(r)[j] {
      if i == 0 {
        assert r[j] in t;
      } else {
        assert Partners(t)[i - 1] != Partners(t)[j - 1];
      }
    }
  }

  /** The tail of a dict is a dict none of whose partners is the head's. */
  lemma UniqueKeysTail(e: Entry, t: Table)
    requires UniqueKeys([e] + t)
    ensures UniqueKeys(t)
    ensures forall x :: x in t ==> x.partner != e.partner
  {
    var r := [e] + t;
    forall i, j | 0 <= i < j < |t| ensures Partners(t)[i] != Partners(t)[j] {
      assert Partners(r)[i + 1] != Partners(r)[j + 1];
    }
    forall x | x in t ensures x.partner != e.partner {
      var j :| 0 <= j < |t| && t[j] == x;
      assert Partners(r)[0] != Partners(r)[j + 1];
    }
  }

  /** The index of the first occurrence of x in s. */
  function IndexOf<T(==)>(s: seq<T>, x: T): (r: Option<nat>)
    ensures r.Some? ==> r.value < |s| && s[r.value] == x
    ensures r.Some? ==> forall j :: 0 <= j < r.value ==> s[j] != x
    ensures r.None? <==> x !in s
  {
    if |s| == 0 then None
    else if s[0] == x then Some(0)
    else match IndexOf(s[1..], x)
      case None => None
      case Some(k) => Some(k + 1)
  }

  lemma {:induction false} IndexOfAppend<T>(s: seq<T>, x: T, y: T)
    ensures IndexOf(s + [x], y) == if y in s then IndexOf(s, y) else if y == x then Some(|s|) else None
  {
    if s != [] {
      assert (s + [x])[1..] == s[1..] + [x];
      IndexOfAppend(s[1..], x, y);
    }
  }

  /** In a sequence without repetitions, the index of an element is its only index. */
  lemma IndexOfDistinct<T>(s: seq<T>, i: nat)
    requires Distinct(s) && i < |s|
    ensures IndexOf(s, s[i]) == Some(i)
  {
  }

  /** t.get(partner): the stored count, if the partner is present. */
  function Get(t: Table, partner: string): (r: Option<int>)
    ensures r.Some? <==> partner in Partners(t)
    ensures r.Some? ==> exists i :: 0 <= i < |t| && t[i] == Entry(partner, r.value)
  {
    match IndexOf(Partners(t), partner)
    case None => None
    case Some(i) => Some(t[i].count)
  }

  /** The count stored for partner, or 0 when the partner is absent. */
  function CountOf(t: Table, partner: string): int
  {
    match Get(t, partner)
    case None => 0
    case Some(c) => c
  }

  /** Every count is at least 1: what $set 1 and $inc 1 can produce. */
  predicate Positive(t: Table)
  {
    forall i :: 0 <= i < |t| ==> t[i].count >= 1
  }

  /**
   * t[e.partner] = e.count: an existing partner keeps its position and takes
   * the new count; a new partner is appended at the end.
   */
  function Put(t: Table, e: Entry): (r: Table)
    ensures Partners(r) == if e.partner in Partners(t) then Partners(t) else Partners(t) + [e.partner]
    ensures e.partner !in Partners(t) ==> r == t + [e]
    ensures Get(r, e.partner) == Some(e.count)
    ensures forall q :: q != e.partner ==> Get(r, q) == Get(t, q)
    ensures UniqueKeys(t) ==> UniqueKeys(r)
    ensures Positive(t) && e.count >= 1 ==> Positive(r)
  {
    match IndexOf(Partners(t), e.partner)
    case None =>
      assert Partners(t + [e]) == Partners(t) + [e.partner];
      forall q { IndexOfAppend(Partners(t), e.partner, q); }
      t + [e]
    case Some(i) =>
      assert Partners(t[i := e]) == Partners(t);
      t[i := e]
  }

  /** Putting an entry that is already stored, with the same count, changes nothing. */
  lemma PutPresent(t: Table, i: nat)
    requires UniqueKeys(t) && i < |t|
    ensures Put(t, t[i]) == t
  {
    IndexOfDistinct(Partners(t), i);
  }

  /** sum(t.values()). */
  function Sum(t: Table): int
  {
    if t == [] then 0 else t[0].count + Sum(t[1..])
  }

  lemma {:induction false} SumAppend(t: Table, e: Entry)
    ensures Sum(t + [e]) == Sum(t) + e.count
  {
    if t != [] {
      assert (t + [e])[1..] == t[1..] + [e];
      SumAppend(t[1..], e);
    }
  }

  /** A table of positive counts sums to at least its number of entries. */
  lemma {:induction false} SumPositive(t: Table)
    requires Positive(t)
    ensures Sum(t) >= |t|
  {
    if t != [] {
      SumPositive(t[1..]);
    }
  }
}
