/**
 * The community top three of the home page: every stored library is read,
 * each accepted vote is added to a per-book tally kept in a `Map` (in the
 * order books are first voted for), the tallies are sorted by total stars,
 * then by vote count, both descending, and the first three are kept.
 */
module TopBooks {
  import opened Types
  import opened Seqs
  import opened OrderedMaps
  import opened KeyedIndex

  /**
   * A library entry as read back from a stored document: a book whose
   * `authors` may be missing, and a rating that may be missing or not a
   * number (`None`). An `id` of `""` stands for a missing or empty id.
   */
  datatype Entry = Entry(
    id: string,
    title: string,
    authors: Option<seq<string>>,
    description: Option<string>,
    thumbnail: Option<string>,
    isbn: Option<string>,
    publishedDate: Option<string>,
    pageCount: Option<int>,
    categories: Option<seq<string>>,
    publisher: Option<string>,
    userRating: Option<int>)

  /** The aggregate value of one book. */
  datatype Tally = Tally(book: Book, totalStars: int, voteCount: int)

  /** An entry counts as a vote when it has an id and a numeric rating. */
  predicate Accepted(e: Entry) {
    e.id != "" && e.userRating.Some?
  }

  /** The book record an entry is stored as: its catalog fields, `authors` defaulting to the empty list. */
  function BookOf(e: Entry): Book {
    Book(e.id, e.title, if e.authors.Some? then e.authors.value else [],
         e.description, e.thumbnail, e.isbn, e.publishedDate, e.pageCount, e.categories, e.publisher)
  }

  function VoteOf(e: Entry): Tally
    requires Accepted(e)
  {
    Tally(BookOf(e), e.userRating.value, 1)
  }

  function TallyId(t: Tally): string { t.book.id }

  /** A later vote adds its stars and its count; the stored book is kept. */
  function AddTallies(stored: Tally, incoming: Tally): Tally {
    Tally(stored.book, stored.totalStars + incoming.totalStars, stored.voteCount + incoming.voteCount)
  }

  /** The accepted entries of `entries` as single votes, in order. */
  function Votes(entries: seq<Entry>): (vs: seq<Tally>)
    ensures |vs| <= |entries|
    ensures forall v :: v in vs ==> exists e :: e in entries && Accepted(e) && v == VoteOf(e)
  {
    if entries == [] then []
    else
      var init, last := entries[..|entries| - 1], entries[|entries| - 1];
      assert entries == init + [last];
      Votes(init) + (if Accepted(last) then [VoteOf(last)] else [])
  }

  /** Every accepted entry gives its vote. */
  lemma {:induction false} VotesComplete(entries: seq<Entry>, e: Entry)
    requires e in entries && Accepted(e)
    ensures VoteOf(e) in Votes(entries)
  {
    var init, last := entries[..|entries| - 1], entries[|entries| - 1];
    assert entries == init + [last];
    if e != last {
      VotesComplete(init, e);
    }
  }

  lemma {:induction false} VotesAppend(a: seq<Entry>, b: seq<Entry>)
    ensures Votes(a + b) == Votes(a) + Votes(b)
  {
    if b == [] {
      assert a + b == a;
    } else {
      var b0, last := b[..|b| - 1], b[|b| - 1];
      var tail := if Accepted(last) then [VoteOf(last)] else [];
      VotesAppend(a, b0);
      assert (a + b)[..|a + b| - 1] == a + b0;
      assert (a + b)[|a + b| - 1] == last;
      ConcatAssoc(Votes(a), Votes(b0), tail);
    }
  }

  // ---------------------------------------------------------------------
  // addLibraryEntries
  // ---------------------------------------------------------------------

  /** One iteration of `addLibraryEntries`: a rejected entry changes nothing. */
  function Count(aggregate: OrderedMap<Tally>, e: Entry): (r: OrderedMap<Tally>)
    requires aggregate.Valid()
    ensures r.Valid()
  {
    if Accepted(e) then Upsert(aggregate, VoteOf(e), TallyId, AddTallies) else aggregate
  }

  /** The aggregate after `addLibraryEntries(entries, aggregate)`. */
  function Tallied(aggregate: OrderedMap<Tally>, entries: seq<Entry>): (r: OrderedMap<Tally>)
    requires aggregate.Valid()
    ensures r.Valid()
  {
    if entries == [] then aggregate
    else Count(Tallied(aggregate, entries[..|entries| - 1]), entries[|entries| - 1])
  }

  /** Adding entries to the aggregate of some votes gives the aggregate of all the votes, in order. */
  lemma {:induction false} TalliedIndex(ts: seq<Tally>, entries: seq<Entry>)
    ensures Tallied(Index(ts, TallyId, AddTallies), entries) == Index(ts + Votes(entries), TallyId, AddTallies)
  {
    if entries == [] {
      assert ts + [] == ts;
    } else {
      var init, last := entries[..|entries| - 1], entries[|entries| - 1];
      TalliedIndex(ts, init);
      if Accepted(last) {
        IndexSnoc(ts + Votes(init), VoteOf(last), TallyId, AddTallies);
        ConcatAssoc(ts, Votes(init), [VoteOf(last)]);
      } else {
        assert Votes(entries) == Votes(init) + [];
        assert Votes(init) + [] == Votes(init);
      }
    }
  }

  method AddLibraryEntries(entries: seq<Entry>, aggregate: OrderedMap<Tally>) returns (r: OrderedMap<Tally>)
    requires aggregate.Valid()
    ensures r == Tallied(aggregate, entries)
  {
    r := aggregate;
    for i := 0 to |entries|
      invariant r.Valid()
      invariant r == Tallied(aggregate, entries[..i])
    {
      var entry := entries[i];
      assert entries[..i + 1][..i] == entries[..i] && entries[..i + 1][i] == entry;
      ghost var expected := Count(r, entry);
      if entry.id != "" && entry.userRating.Some? {
        var rating := entry.userRating.value;
        if entry.id !in r.entries {
          r := r.Set(entry.id, Tally(BookOf(entry), rating, 1));
        } else {
          var existing := r.entries[entry.id];
          r := r.Set(entry.id, existing.(totalStars := existing.totalStars + rating, voteCount := existing.voteCount + 1));
        }
      }
      assert r == expected;
    }
    assert entries[..|entries|] == entries;
  }

  // ---------------------------------------------------------------------
  // What the aggregate holds for one book
  // ---------------------------------------------------------------------

  /** The number of accepted entries with id `k`. */
  function VoteCount(entries: seq<Entry>, k: string): nat {
    if entries == [] then 0
    else
      var last := entries[|entries| - 1];
      VoteCount(entries[..|entries| - 1], k) + (if Accepted(last) && last.id == k then 1 else 0)
  }

  /** The sum of the ratings of the accepted entries with id `k`. */
  function StarSum(entries: seq<Entry>, k: string): int {
    if entries == [] then 0
    else
      var last := entries[|entries| - 1];
      StarSum(entries[..|entries| - 1], k) + (if Accepted(last) && last.id == k then last.userRating.value else 0)
  }

  /** `i` is the first accepted entry with id `k`. */
  ghost predicate FirstVoteAt(entries: seq<Entry>, k: string, i: int) {
    && 0 <= i < |entries|
    && Accepted(entries[i]) && entries[i].id == k
    && forall j :: 0 <= j < i ==> !(Accepted(entries[j]) && entries[j].id == k)
  }

  /** The votes with id `k` grow by the last entry when it is one. */
  lemma WithKeyVotesSnoc(entries: seq<Entry>, k: string)
    requires entries != []
    ensures var init, last := entries[..|entries| - 1], entries[|entries| - 1];
      WithKey(Votes(entries), TallyId, k)
      == WithKey(Votes(init), TallyId, k) + (if Accepted(last) && last.id == k then [VoteOf(last)] else [])
  {
    var init, last := entries[..|entries| - 1], entries[|entries| - 1];
    var tail := if Accepted(last) then [VoteOf(last)] else [];
    assert Votes(entries) == Votes(init) + tail;
    WithKeyAppend(Votes(init), tail, TallyId, k);
    if Accepted(last) {
      assert tail[..0] == [];
    }
  }

  function SumVotes(ts: seq<Tally>): int {
    if ts == [] then 0 else SumVotes(ts[..|ts| - 1]) + ts[|ts| - 1].voteCount
  }

  function SumStars(ts: seq<Tally>): int {
    if ts == [] then 0 else SumStars(ts[..|ts| - 1]) + ts[|ts| - 1].totalStars
  }

  /** Folding `AddTallies` keeps the first book and sums the counts and the stars. */
  lemma {:induction false} FoldTallies(ts: seq<Tally>)
    requires |ts| > 0
    ensures Fold1(ts, AddTallies) == Tally(ts[0].book, SumStars(ts), SumVotes(ts))
  {
    var init := ts[..|ts| - 1];
    if |ts| == 1 {
      assert init == [];
    } else {
      FoldTallies(init);
      assert init[0] == ts[0];
    }
  }

  lemma SumsSnoc(ts: seq<Tally>, v: Tally)
    ensures SumVotes(ts + [v]) == SumVotes(ts) + v.voteCount
    ensures SumStars(ts + [v]) == SumStars(ts) + v.totalStars
  {
    assert (ts + [v])[..|ts + [v]| - 1] == ts;
  }

  /** The votes with id `k` are as many as the accepted entries with that id, and carry their stars. */
  lemma {:induction false} VotesTotals(entries: seq<Entry>, k: string)
    ensures var w := WithKey(Votes(entries), TallyId, k);
      && |w| == VoteCount(entries, k)
      && SumVotes(w) == VoteCount(entries, k)
      && SumStars(w) == StarSum(entries, k)
  {
    if entries != [] {
      var init, last := entries[..|entries| - 1], entries[|entries| - 1];
      VotesTotals(init, k);
      WithKeyVotesSnoc(entries, k);
      var w0 := WithKey(Votes(init), TallyId, k);
      var w := WithKey(Votes(entries), TallyId, k);
      if Accepted(last) && last.id == k {
        assert w == w0 + [VoteOf(last)];
        assert VoteCount(entries, k) == VoteCount(init, k) + 1;
        assert StarSum(entries, k) == StarSum(init, k) + last.userRating.value;
        SumsSnoc(w0, VoteOf(last));
      } else {
        assert w == w0;
        assert VoteCount(entries, k) == VoteCount(init, k);
        assert StarSum(entries, k) == StarSum(init, k);
      }
    }
  }

  /** No vote counted means no accepted entry with that id. */
  lemma {:induction false} NoVoteCount(entries: seq<Entry>, k: string)
    requires VoteCount(entries, k) == 0
    ensures forall j :: 0 <= j < |entries| ==> !(Accepted(entries[j]) && entries[j].id == k)
  {
    if entries != [] {
      var init := entries[..|entries| - 1];
      NoVoteCount(init, k);
      assert forall j :: 0 <= j < |init| ==> entries[j] == init[j];
    }
  }

  /** The first vote with id `k` comes from the first accepted entry with that id. */
  lemma {:induction false} FirstVote(entries: seq<Entry>, k: string)
    requires |WithKey(Votes(entries), TallyId, k)| > 0
    ensures exists i :: FirstVoteAt(entries, k, i) && WithKey(Votes(entries), TallyId, k)[0] == VoteOf(entries[i])
    decreases |entries|, 1
  {
    var init := entries[..|entries| - 1];
    if |WithKey(Votes(init), TallyId, k)| == 0 {
      FirstVoteLast(entries, k);
    } else {
      FirstVoteEarlier(entries, k);
    }
  }

  lemma FirstVoteLast(entries: seq<Entry>, k: string)
    requires |WithKey(Votes(entries), TallyId, k)| > 0
    requires |WithKey(Votes(entries[..|entries| - 1]), TallyId, k)| == 0
    ensures FirstVoteAt(entries, k, |entries| - 1)
    ensures WithKey(Votes(entries), TallyId, k)[0] == VoteOf(entries[|entries| - 1])
  {
    var init, last := entries[..|entries| - 1], entries[|entries| - 1];
    WithKeyVotesSnoc(entries, k);
    VotesTotals(init, k);
    NoVoteCount(init, k);
    assert forall j :: 0 <= j < |init| ==> entries[j] == init[j];
  }

  lemma {:induction false} FirstVoteEarlier(entries: seq<Entry>, k: string)
    requires |entries| > 0
    requires |WithKey(Votes(entries[..|entries| - 1]), TallyId, k)| > 0
    ensures |WithKey(Votes(entries), TallyId, k)| > 0
    ensures exists i :: FirstVoteAt(entries, k, i) && WithKey(Votes(entries), TallyId, k)[0] == VoteOf(entries[i])
    decreases |entries|, 0
  {
    var init := entries[..|entries| - 1];
    WithKeyVotesSnoc(entries, k);
    var w0 := WithKey(Votes(init), TallyId, k);
    var w := WithKey(Votes(entries), TallyId, k);
    FirstVote(init, k);
    var i :| FirstVoteAt(init, k, i) && w0[0] == VoteOf(init[i]);
    assert w[0] == w0[0];
    assert forall j :: 0 <= j <= i ==> entries[j] == init[j];
    assert FirstVoteAt(entries, k, i);
  }

  /**
   * A book is in the aggregate of `entries` exactly when some accepted entry
   * has its id; its tally then counts the accepted entries with that id,
   * sums their ratings, and holds the book of the first of them.
   */
  lemma AggregateAt(entries: seq<Entry>, k: string)
    ensures k in Index(Votes(entries), TallyId, AddTallies).entries
            <==> exists j :: 0 <= j < |entries| && Accepted(entries[j]) && entries[j].id == k
    ensures k in Index(Votes(entries), TallyId, AddTallies).entries ==>
              var t := Index(Votes(entries), TallyId, AddTallies).entries[k];
              && t.voteCount == VoteCount(entries, k)
              && t.totalStars == StarSum(entries, k)
              && exists i :: FirstVoteAt(entries, k, i) && t.book == BookOf(entries[i])
  {
    var vs := Votes(entries);
    VotesTotals(entries, k);
    var w := WithKey(vs, TallyId, k);
    if k in Keys(vs, TallyId) {
      IndexAt(vs, TallyId, AddTallies, k);
      FoldTallies(w);
      FirstVote(entries, k);
    } else {
      assert |w| == 0;
      NoVoteCount(entries, k);
    }
  }

  // ---------------------------------------------------------------------
  // The ranking
  // ---------------------------------------------------------------------

  /** `a` sorts strictly ahead of `b`: more stars, or as many stars and more votes. */
  predicate Before(a: Tally, b: Tally) {
    a.totalStars > b.totalStars || (a.totalStars == b.totalStars && a.voteCount > b.voteCount)
  }

  /** Nothing sorts ahead of an earlier element. */
  ghost predicate Ranked(s: seq<Tally>) {
    forall i, j :: 0 <= i < j < |s| ==> !Before(s[j], s[i])
  }

  /** Insert `x` after every element it does not sort ahead of. */
  function Insert(s: seq<Tally>, x: Tally): (r: seq<Tally>)
    ensures |r| == |s| + 1
    ensures multiset(r) == multiset(s) + multiset{x}
    ensures Ranked(s) ==> Ranked(r)
  {
    if s == [] then [x]
    else
      var init, last := s[..|s| - 1], s[|s| - 1];
      assert s == init + [last];
      if Before(x, last) then
        var r0 := Insert(init, x);
        assert Ranked(s) ==> Ranked(r0 + [last]) by {
          if Ranked(s) {
            InsertAhead(init, last, x, r0);
            RankedSnoc(r0, last);
          }
        }
        r0 + [last]
      else
        assert Ranked(s) ==> Ranked(s + [x]) by {
          if Ranked(s) {
            AppendRanked(s, x);
          }
        }
        s + [x]
  }

  /**
   * When `x` sorts ahead of the last element of a ranked list, that element
   * sorts ahead of nothing in the rest with `x` inserted.
   */
  lemma InsertAhead(init: seq<Tally>, last: Tally, x: Tally, r0: seq<Tally>)
    requires Ranked(init + [last]) && Before(x, last)
    requires multiset(r0) == multiset(init) + multiset{x}
    ensures forall i :: 0 <= i < |r0| ==> !Before(last, r0[i])
  {
    forall i | 0 <= i < |r0|
      ensures !Before(last, r0[i])
    {
      var y := r0[i];
      assert y in multiset(r0);
      if y != x {
        assert y in init;
        var k :| 0 <= k < |init| && init[k] == y;
        assert (init + [last])[k] == y && (init + [last])[|init|] == last;
      }
    }
  }

  /** An element that the last one sorts no later than can follow a ranked list. */
  lemma AppendRanked(s: seq<Tally>, x: Tally)
    requires Ranked(s) && s != [] && !Before(x, s[|s| - 1])
    ensures Ranked(s + [x])
  {
    assert forall i :: 0 <= i < |s| ==> !Before(s[|s| - 1], s[i]) || i == |s| - 1;
  }

  /** An element that sorts ahead of nothing before it can go last. */
  lemma RankedSnoc(s: seq<Tally>, x: Tally)
    requires Ranked(s)
    requires forall i :: 0 <= i < |s| ==> !Before(x, s[i])
    ensures Ranked(s + [x])
  {
  }

  /** The sort of the ranking pipeline: a stable sort by `Before`. */
  function SortByScore(s: seq<Tally>): (r: seq<Tally>)
    ensures |r| == |s|
    ensures multiset(r) == multiset(s)
    ensures Ranked(r)
  {
    if s == [] then []
    else
      assert s == s[..|s| - 1] + [s[|s| - 1]];
      Insert(SortByScore(s[..|s| - 1]), s[|s| - 1])
  }

  /** `.slice(0, 3)`. */
  function TopThree(s: seq<Tally>): (r: seq<Tally>)
    ensures |r| == if |s| < 3 then |s| else 3
    ensures r <= s
  {
    if |s| < 3 then s else s[..3]
  }

  /** The ranking of an aggregate: its values, sorted, first three. */
  function RankAggregate(aggregate: OrderedMap<Tally>): seq<Tally>
    requires aggregate.Valid()
  {
    TopThree(SortByScore(aggregate.Values()))
  }

  /**
   * The ranking lists min(3, n) of the n tallies, in ranking order, and no
   * tally left out sorts ahead of a listed one.
   */
  lemma RankAggregateTop(aggregate: OrderedMap<Tally>)
    requires aggregate.Valid()
    ensures var r := RankAggregate(aggregate);
      && |r| == (if |aggregate.keys| < 3 then |aggregate.keys| else 3)
      && Ranked(r)
      && (forall x :: x in r ==> x in aggregate.Values())
      && (forall x, y :: x in r && y in aggregate.Values() && y !in r ==> !Before(y, x))
  {
    var vs := aggregate.Values();
    var s := SortByScore(vs);
    var r := TopThree(s);
    assert r == s[..|r|];
    forall x | x in r
      ensures x in vs
    {
      assert x in multiset(s);
    }
    forall x, y | x in r && y in vs && y !in r
      ensures !Before(y, x)
    {
      assert y in multiset(s);
      var i :| 0 <= i < |r| && r[i] == x;
      var j :| 0 <= j < |s| && s[j] == y;
      assert j >= |r|;
    }
  }

  // ---------------------------------------------------------------------
  // loadTopBooks
  // ---------------------------------------------------------------------

  /**
   * The result of reading every stored library: each document's `library`
   * (an empty list when it is not an array), or a failure after the listed
   * documents were aggregated (none when the read itself failed).
   */
  datatype RemoteRead = Loaded(docs: seq<seq<Entry>>) | Failed(docsBefore: seq<seq<Entry>>)

  function Flatten(docs: seq<seq<Entry>>): seq<Entry> {
    if docs == [] then [] else Flatten(docs[..|docs| - 1]) + docs[|docs| - 1]
  }

  /**
   * What `loadTopBooks` ranks: the remote votes, or the local library's votes
   * when the remote ones are none; after a failure, the local votes are added
   * to whatever was aggregated before it.
   */
  function TopBooks(remote: RemoteRead, local: seq<Entry>): seq<Tally> {
    match remote
    case Loaded(docs) =>
      var votes := Votes(Flatten(docs));
      if votes == [] then RankAggregate(Index(Votes(local), TallyId, AddTallies))
      else RankAggregate(Index(votes, TallyId, AddTallies))
    case Failed(docsBefore) =>
      RankAggregate(Index(Votes(Flatten(docsBefore) + local), TallyId, AddTallies))
  }

  /** Aggregate every document in turn. */
  method AggregateDocs(docs: seq<seq<Entry>>) returns (aggregate: OrderedMap<Tally>)
    ensures aggregate == Index(Votes(Flatten(docs)), TallyId, AddTallies)
  {
    aggregate := EmptyMap();
    assert aggregate == Index(Votes(Flatten(docs[..0])), TallyId, AddTallies);
    for i := 0 to |docs|
      invariant aggregate == Index(Votes(Flatten(docs[..i])), TallyId, AddTallies)
    {
      aggregate := AddLibraryEntries(docs[i], aggregate);
      TalliedIndex(Votes(Flatten(docs[..i])), docs[i]);
      assert docs[..i + 1][..i] == docs[..i] && docs[..i + 1][i] == docs[i];
      assert Flatten(docs[..i + 1]) == Flatten(docs[..i]) + docs[i];
      VotesAppend(Flatten(docs[..i]), docs[i]);
    }
    assert docs[..|docs|] == docs;
  }

  method LoadTopBooks(remote: RemoteRead, local: seq<Entry>) returns (ranked: seq<Tally>)
    ensures ranked == TopBooks(remote, local)
  {
    match remote {
      case Loaded(docs) =>
        var aggregate := AggregateDocs(docs);
        if |aggregate.keys| == 0 {
          ghost var votes := Votes(Flatten(docs));
          IndexEmpty(votes, TallyId, AddTallies);
          aggregate := AddLibraryEntries(local, aggregate);
          TalliedIndex(votes, local);
          assert votes + Votes(local) == Votes(local);
        } else {
          IndexEmpty(Votes(Flatten(docs)), TallyId, AddTallies);
        }
        ranked := RankAggregate(aggregate);
      case Failed(docsBefore) =>
        var aggregate := AggregateDocs(docsBefore);
        aggregate := AddLibraryEntries(local, aggregate);
        TalliedIndex(Votes(Flatten(docsBefore)), local);
        VotesAppend(Flatten(docsBefore), local);
        ranked := RankAggregate(aggregate);
    }
  }

  /**
   * Local entries matter only when the remote read gives no vote or fails:
   * once a stored library holds a vote, the ranking ignores the local one.
   */
  lemma LocalOnlyAsFallback(docs: seq<seq<Entry>>, local1: seq<Entry>, local2: seq<Entry>)
    ensures (exists j :: 0 <= j < |Flatten(docs)| && Accepted(Flatten(docs)[j])) ==>
              TopBooks(Loaded(docs), local1) == TopBooks(Loaded(docs), local2)
    ensures (forall j :: 0 <= j < |Flatten(docs)| ==> !Accepted(Flatten(docs)[j])) ==>
              TopBooks(Loaded(docs), local1) == RankAggregate(Index(Votes(local1), TallyId, AddTallies))
  {
    var all := Flatten(docs);
    if exists j :: 0 <= j < |all| && Accepted(all[j]) {
      var j :| 0 <= j < |all| && Accepted(all[j]);
      AggregateAt(all, all[j].id);
    } else {
      NoVotes(all);
    }
  }

  lemma {:induction false} NoVotes(entries: seq<Entry>)
    requires forall j :: 0 <= j < |entries| ==> !Accepted(entries[j])
    ensures Votes(entries) == []
  {
    if entries != [] {
      NoVotes(entries[..|entries| - 1]);
    }
  }
}
