# bestiebot, modelled in Dafny

bestiebot watches the comment stream of one subreddit. For every comment it
does two things, in this order:

- **record_comment**: when a fresh, authored comment replies to another
  comment, the bot adds one to how often its author has replied to the
  parent's author. The counts live in a Mongo collection, one record per
  commenter (`{'commenter': name, 'besties': {partner: count}}`).
- **handle_comment**: it answers two commands, `!my_bestie` and
  `!their_bestie(<name>)`. It looks the user up, sorts their partners by
  count, pops the three largest, and reports them with the total number of
  counted replies and a "unique users" figure.

The model has seven modules, one file each:

- `Wrappers` (wrappers.dfy): the `Option` type.
- `Text` (text.dfy): the string operations the bot uses. These are
  `str.lower()`, the substring test `in` and `str.split`. `Text.Find`, the
  first occurrence of a pattern, is how the model decides `in` and where
  `str.split` cuts.
- `BestieTable` (bestie_table.dfy): the besties dict. It is an
  insertion-ordered sequence of (partner, count) entries, with Python's
  semantics for `d[k] = v` and `sum(d.values())`. Python's `popitem()` on it
  is modelled by `Ranking.TopEntries` and `Commands.PopTopThree`.
- `Store` (store.dfy): the comment events and the collection. `Apply` and
  `Replay` are the specification of record_comment. The class `BestieStore`
  holds the collection as a field that its method `RecordComment` updates
  step by step, as the source does.
- `Ranking` (ranking.dfy): `get_all_besties`. It covers the
  case-insensitive lookup, the stable sort by ascending count, and the
  entries that successive `popitem()` calls take off the end.
- `Commands` (commands.dfy): command parsing and the reply's figures.
  `Answer` and `Respond` are the specifications; the methods `PopTopThree`,
  `AnswerQuery` and `HandleComment` do the source's steps, loop included.
- `Driver` (driver.dfy): the stream loop of `main()`, over a finite
  sequence of comments.

Where the code's behaviour may surprise (the "top 3" of the comment at
main.py:125 and the "unique users" wording of the reply at main.py:145), the
model follows the code:

- `!my_bestie` from a user with one or two partners still gets a reply. The
  inner `try` around `popitem()` swallows the error and re-puts the previous
  entry. Only an empty table means no reply (the name `bestie` is never
  bound).
- The "unique users" figure is `len(all_besties)` after the pops. That is
  the number of partners minus three, or 0 for a short `!my_bestie` table.
- The target of `!their_bestie(` is the second piece of
  `split('!their_bestie(')`, cut at the first `)`. So it also ends at a
  second `!their_bestie(`, and runs to the end of the body when there is no
  `)`.
- The lookup is an unanchored, case-insensitive regular-expression search.
  A query for `bob` is answered from the first record whose name contains
  `bob`, which may be `bobby`.

## Model

| member | source | states |
|---|---|---|
| Text.LowerIdempotent | main.py:155 | lowering an already lowered body changes nothing |
| Text.Find | main.py:117 | the first index at which the pattern occurs, and no earlier occurrence; None exactly when it occurs nowhere |
| Text.Split | main.py:155 | `str.split` yields at least one piece, and two or more exactly when the separator occurs |
| Text.SplitJoin | main.py:155 | joining the pieces with the separator gives back the string |
| Text.SplitPiecesAvoid | main.py:155 | no piece contains the separator |
| Text.SplitFirst | main.py:155 | the first piece is a prefix that runs up to the first separator, or is the whole string |
| Text.SplitSecond | main.py:155 | the second piece starts right after the first separator and runs to the next one or to the end |
| Text.SecondPieceUpTo | main.py:155 | `s.split(sep)[1].split(stop)[0]` starts after the first sep and contains neither sep nor stop; it ends at a stop, at a sep, or at the end of s |
| BestieTable.IndexOf | main.py:73 | the first position of a key, and absent exactly when the key is not there |
| BestieTable.Get | main.py:89 | a partner's count is present exactly when the partner is a key, and is that entry's count |
| BestieTable.Put | main.py:132 | `d[k] = v`: an existing key keeps its place and takes the new value; a new key is appended; other keys keep their values; distinct keys and positive counts are kept |
| BestieTable.PutPresent | main.py:132 | putting an entry that is already stored leaves the dict unchanged |
| BestieTable.SumAppend | main.py:123 | the sum of the values grows by the value of an appended entry |
| BestieTable.SumPositive | main.py:123 | a table of positive counts sums to at least its number of entries |
| Store.Lookup | main.py:73-89 | `find_one({'commenter': name})` by exact name: present exactly when a record for that name exists, and then its table |
| Store.EnsureRecord | main.py:73-78 | a record is inserted only when none exists for the author, and it is appended |
| Store.Bump | main.py:89-95 | `$set 1` for a new partner and `$inc 1` otherwise: the count goes up by exactly one, every other partner's count is unchanged, keys stay distinct and counts positive |
| Store.LookupEnsureRecord | main.py:73-78 | after the insert, the author's table is empty if it was created; every other lookup is unchanged |
| Store.LookupAddInteraction | main.py:86-95 | after the update, only the author's table changes, and by one bump |
| Store.ApplyLookup | main.py:62-96 | one comment changes at most the author's record: created empty if missing, bumped for the parent's author if there is one |
| Store.ApplyCounts | main.py:62-96 | a count rises by one for a qualifying reply and is unchanged for every other comment, including stale, top-level and authorless ones |
| Store.ApplyCommenters | main.py:62-78 | a record is appended only for an eligible author without one, so no record is inserted twice |
| Store.ApplyAuthorlessParent | main.py:82-87 | a reply to a comment whose author is gone still creates the record and changes no count |
| Store.ApplyWellFormed | main.py:62-96 | recording keeps one record per commenter, distinct partners and positive counts |
| Store.ReplayStale | main.py:62 | comments older than startup never change the collection |
| Store.ReplayCounts | main.py:62-96 | over any sequence of comments a count grows by exactly the number of qualifying replies, so N replies give N |
| Store.BestieStore.constructor | main.py:11-13 | the collection starts empty and well formed |
| Store.BestieStore.RecordComment | main.py:53-96 | record_comment updates the collection exactly as the specification `Apply` says and keeps it well formed |
| Ranking.FindOne | main.py:32 | the first record in insertion order whose name matches the pattern; None exactly when no record matches |
| Ranking.SameNameMatches | main.py:32 | a name equal to the query up to ASCII case always matches |
| Ranking.CaseInsensitiveFound | main.py:32 | a record whose name equals the query up to case is always found, at or before its own position |
| Ranking.EarlierLongerNameWins | main.py:32 | the search is unanchored: a query for `bob` returns an earlier `bobby` record |
| Ranking.WithCountMembers | main.py:35 | the entries with a given count are exactly the table's entries with that count |
| Ranking.InsertByCount | main.py:35 | inserting an entry into a sorted table keeps it sorted and adds exactly that entry |
| Ranking.SortByCount | main.py:35 | the sort result is non-decreasing by count and a permutation of the input |
| Ranking.InsertStable | main.py:35 | insertion keeps entries of equal count in their original order |
| Ranking.SortStable | main.py:35 | the sort is stable: entries with equal counts keep their relative order |
| Ranking.InsertSum | main.py:35 | inserting an entry adds its count to the sum |
| Ranking.SortSum | main.py:35 | sorting keeps the sum of the counts |
| Ranking.InsertUnique | main.py:35 | insertion keeps the partners distinct |
| Ranking.SortUnique | main.py:35 | sorting keeps the partners distinct |
| Ranking.SortedHeadLeast | main.py:35 | the head of a sorted table has the least count |
| Ranking.SortedStableHead | main.py:35 | two sorted tables with the same entries in the same order per count start with the same entry |
| Ranking.WithCountTails | main.py:35 | dropping a common head keeps the per-count orders equal |
| Ranking.WithCountNonEmpty | main.py:35 | some entry has the head's count |
| Ranking.SortedStableUnique | main.py:35 | a sorted table is fixed by its entries' order within each count |
| Ranking.StableSortIsUnique | main.py:35 | any sorted, stably ordered arrangement of the table is the sort's result |
| Ranking.GetAllBesties | main.py:25-37 | None exactly when no record matches (the subscript of None raises); otherwise the matched table under the stable sort `SortByCount` (so equal counts keep their stored order, by SortStable), sorted, with the same entries, the same sum and distinct partners |
| Ranking.TopEntries | main.py:127-132 | k calls of `popitem()` take k entries |
| Ranking.TopEntriesAt | main.py:129 | the i-th popped entry is the i-th from the end |
| Ranking.TopEntriesSplit | main.py:123-129 | the popped entries and what is left are the whole table, in entries and in sum |
| Ranking.TopEntriesAreLargest | main.py:125-132 | from a sorted table the popped entries come in descending order; the first is a maximum and nothing left is larger than the last popped |
| Commands.TheirTarget | main.py:155 | the target starts right after the first `!their_bestie(`, contains no `)` and no trigger, and ends at a `)`, at a trigger or at the end of the body |
| Commands.ParseCommand | main.py:117-155 | `!my_bestie` is looked for first; `!their_bestie(` only without it, with the target cut from the lowered body |
| Commands.Respond | main.py:109-180 | a reply is only ever sent to a fresh comment with an author that carries a command |
| Commands.PutPopped | main.py:132 | putting the next popped entry onto the popped ones appends it |
| Commands.PutRepeated | main.py:128-132 | re-putting the last popped entry after the table ran out changes nothing |
| Commands.PopTopThree | main.py:126-165 | the pop loop succeeds exactly when the table is non-empty and, outside the lenient branch, has at least three entries; it yields the popped entries and what remains |
| Commands.AnswerQuery | main.py:120-180 | the try block gives exactly the reply the specification `Answer` describes |
| Commands.HandleComment | main.py:100-180 | handle_comment replies exactly as the specification `Respond` describes |
| Commands.PositivePermuted | main.py:35 | reordering keeps every count positive |
| Commands.TopEntriesUnique | main.py:132 | the popped entries have distinct partners |
| Commands.AnswerFound | main.py:122-177 | for a found user the reply reports the popped entries, the table's total and what is left; there is none for an empty table, or for fewer than three partners with `!their_bestie` |
| Commands.AnswerOutcome | main.py:126-165 | a found user gets a reply exactly when their table is non-empty and, for `!their_bestie`, has at least three partners |
| Commands.PoppedAreTop | main.py:125-165 | the popped entries are distinct entries of the table in descending order; the first is a maximum and every other entry counts no more than the last popped |
| Commands.PoppedSum | main.py:139 | the popped entries' sum is at least their number and at most the total |
| Commands.TopThreeReply | main.py:120-177 | with three or more partners the reply lists the three largest in descending order; its total is taken before the pops and bounds the top three's sum; "unique users" is the partner count minus three |
| Commands.FewPartnersMyBestie | main.py:126-145 | `!my_bestie` with one or two partners lists exactly those, descending, with "unique users" 0 |
| Commands.RespondDispatch | main.py:109-180 | for a fresh authored comment, `!my_bestie` wins over `!their_bestie(`; a comment with neither gets no reply; whether the comment is top-level plays no part |
| Commands.TheirTargetLowered | main.py:155 | the extracted target is in lower case |
| Commands.UnknownTargetNoReply | main.py:157-180 | `!their_bestie` about a user no record matches gets no reply |
| Commands.MyBestieNoPartners | main.py:120-150 | `!my_bestie` from an unknown author, or one with an empty table, gets no reply |
| Driver.Replies | main.py:48-50 | one reply outcome per comment of the stream |
| Driver.RepliesStable | main.py:48-50 | the reply to comment k does not depend on the comments that come after it |
| Driver.RepliesAt | main.py:48-50 | the k-th reply reads the collection with comments 0..k already recorded |
| Driver.StaleStreamIgnored | main.py:62-109 | a stream of comments older than startup changes nothing and gets no reply |
| Driver.Run | main.py:40-50 | the loop records and then answers each comment; the collection ends as `Replay` says and the replies are `Replies` |

## Left out

- The connections to Mongo and Reddit, the environment credentials, and
  `time.time()` (main.py:11-23, 42-48) are not modelled. The startup time is a
  parameter and the stream is a finite sequence of comments.
- The reply text, the `print` logging and `comment.reply` are not modelled.
  The model returns the figures the text is built from: the name, the
  popped entries, the total and the unique-users count. `comment.reply` is
  taken never to raise.
- The percentages in the reply (main.py:139-141, 172-174) use floating-point
  division and rounding, which are not modelled. Only their numerators and
  denominator are. A total of 0 raises ZeroDivisionError and means no reply;
  the model keeps that case.
- Timestamps are integers, not Python floats.
- Ranking.Matches reads the regular expression as a literal. Names holding
  regular-expression metacharacters, or an invalid pattern built from a
  `!their_bestie(` target, are not modelled.
- Text.Lower lowers ASCII letters only. Python's full Unicode lowering is not
  modelled.
- Usernames holding `.` or `$` would form other Mongo field paths in
  `besties.{parent_author}`. The model treats every name as one plain key.
- Concurrent writers to the collection are not modelled. Each update is
  applied atomically, in stream order.
- Ranking.FindOne scans the records in insertion order. MongoDB's `find_one`
  returns the first document in the collection's natural order, which Mongo
  does not guarantee to be insertion order; the model takes the two to agree.
