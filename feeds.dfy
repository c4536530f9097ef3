/** Feed aggregation (fetch_feeds) and the trailing 24-hour window
    (filter_entries_last_24_hours). Instants are integers counting microseconds,
    the resolution of Python's datetime. */
module Feeds {

  datatype Option<T> = None | Some(value: T)

  /** A feed entry. `published` is the instant of its `published_parsed` time
      tuple, or None when the entry has no such attribute. */
  datatype Entry = Entry(title: string, summary: string, link: string, published: Option<int>)

  /** What parsing one source gives: its entries, or an exception. */
  datatype FetchOutcome = Parsed(entries: seq<Entry>) | Raised

  /** The entries a source adds to the aggregate: none when it raised. */
  function Contribution(o: FetchOutcome): seq<Entry> {
    match o
    case Parsed(es) => es
    case Raised => []
  }

  /** The aggregate of the sources `urls`, in source order. */
  function Aggregate(urls: seq<string>, fetch: string -> FetchOutcome): seq<Entry> {
    if urls == [] then []
    else Aggregate(urls[..|urls| - 1], fetch) + Contribution(fetch(urls[|urls| - 1]))
  }

  /** fetch_feeds: every source is parsed in order and its entries appended;
      a source that raises adds nothing and does not stop the loop. */
  method FetchFeeds(urls: seq<string>, fetch: string -> FetchOutcome) returns (entries: seq<Entry>)
    ensures entries == Aggregate(urls, fetch)
  {
    entries := [];
    for i := 0 to |urls|
      invariant entries == Aggregate(urls[..i], fetch)
    {
      assert urls[..i + 1][..i] == urls[..i];
      var feed := fetch(urls[i]);
      match feed {
        case Parsed(es) => entries := entries + es;
        case Raised =>
      }
    }
    assert urls[..|urls|] == urls;
  }

  /** The aggregate of two runs of sources is the first's followed by the second's. */
  lemma {:induction false} AggregateAppend(a: seq<string>, b: seq<string>, fetch: string -> FetchOutcome)
    ensures Aggregate(a + b, fetch) == Aggregate(a, fetch) + Aggregate(b, fetch)
    decreases |b|
  {
    if b == [] {
      assert a + b == a;
    } else {
      var b', last := b[..|b| - 1], b[|b| - 1];
      assert (a + b)[..|a + b| - 1] == a + b';
      assert (a + b)[|a + b| - 1] == last;
      AggregateAppend(a, b', fetch);
      assert Aggregate(a + b, fetch) == Aggregate(a + b', fetch) + Contribution(fetch(last));
      assert Aggregate(b, fetch) == Aggregate(b', fetch) + Contribution(fetch(last));
    }
  }

  /** A failing source contributes nothing, wherever it stands: the aggregate
      is the same as without it. */
  lemma FailingSourceSkipped(before: seq<string>, url: string, after: seq<string>, fetch: string -> FetchOutcome)
    requires fetch(url) == Raised
    ensures Aggregate(before + [url] + after, fetch) == Aggregate(before + after, fetch)
  {
    AggregateAppend(before + [url], after, fetch);
    AggregateAppend(before, [url], fetch);
    AggregateAppend(before, after, fetch);
    assert [url][..0] == [];
    assert Aggregate([url], fetch) == [];
    assert Aggregate(before + [url], fetch) == Aggregate(before, fetch);
  }

  /** An entry is in the aggregate exactly when some source that parsed has it. */
  lemma {:induction false} AggregateMembership(urls: seq<string>, fetch: string -> FetchOutcome, e: Entry)
    ensures e in Aggregate(urls, fetch) <==>
            exists k :: 0 <= k < |urls| && fetch(urls[k]).Parsed? && e in fetch(urls[k]).entries
  {
    if urls != [] {
      var n := |urls| - 1;
      var init := urls[..n];
      AggregateMembership(init, fetch, e);
      if e in Aggregate(urls, fetch) {
        if e in Aggregate(init, fetch) {
          var k :| 0 <= k < |init| && fetch(init[k]).Parsed? && e in fetch(init[k]).entries;
          assert urls[k] == init[k];
        } else {
          assert fetch(urls[n]).Parsed? && e in fetch(urls[n]).entries;
        }
      } else {
        forall k | 0 <= k < |urls| && fetch(urls[k]).Parsed?
          ensures e !in fetch(urls[k]).entries
        {
          if k < n {
            assert urls[k] == init[k];
          }
        }
      }
    }
  }

  /** The length of the window, 24 hours in microseconds. */
  const Day: int := 24 * 60 * 60 * 1000000

  /** An entry is kept when it has a publication instant no earlier than 24
      hours before `now`; later instants, even in the future, are kept. */
  predicate IsRecent(e: Entry, now: int) {
    e.published.Some? && e.published.value >= now - Day
  }

  /** The entries of `entries` that are recent, in their order. */
  function Recent(entries: seq<Entry>, now: int): seq<Entry> {
    if entries == [] then []
    else
      var last := entries[|entries| - 1];
      Recent(entries[..|entries| - 1], now) + (if IsRecent(last, now) then [last] else [])
  }

  /** filter_entries_last_24_hours, with the one reading of the clock taken
      before the loop passed in as `now`. */
  method FilterLast24Hours(entries: seq<Entry>, now: int) returns (filtered: seq<Entry>)
    ensures filtered == Recent(entries, now)
    ensures IsSubsequence(filtered, entries)
    ensures forall e :: e in filtered <==> e in entries && IsRecent(e, now)
  {
    filtered := [];
    for i := 0 to |entries|
      invariant filtered == Recent(entries[..i], now)
    {
      assert entries[..i + 1][..i] == entries[..i];
      var entry := entries[i];
      if entry.published.Some? {
        var published := entry.published.value;
        if published >= now - Day {
          filtered := filtered + [entry];
        }
      }
    }
    assert entries[..|entries|] == entries;
    RecentIsSubsequence(entries, now);
    forall e ensures e in filtered <==> e in entries && IsRecent(e, now) {
      RecentMembership(entries, now, e);
    }
  }

  /** `a` is `b` with some elements left out, the rest in their order. */
  predicate IsSubsequence<T(==)>(a: seq<T>, b: seq<T>)
    decreases |b|
  {
    if b == [] then a == []
    else (a != [] && a[|a| - 1] == b[|b| - 1] && IsSubsequence(a[..|a| - 1], b[..|b| - 1]))
         || IsSubsequence(a, b[..|b| - 1])
  }

  lemma {:induction false} RecentIsSubsequence(entries: seq<Entry>, now: int)
    ensures IsSubsequence(Recent(entries, now), entries)
  {
    if entries != [] {
      var init := entries[..|entries| - 1];
      RecentIsSubsequence(init, now);
      var r := Recent(entries, now);
      if IsRecent(entries[|entries| - 1], now) {
        assert r[..|r| - 1] == Recent(init, now);
      } else {
        assert r == Recent(init, now);
        assert IsSubsequence(r, init);
      }
    }
  }

  /** An entry is kept iff it is in the input and recent. */
  lemma {:induction false} RecentMembership(entries: seq<Entry>, now: int, e: Entry)
    ensures e in Recent(entries, now) <==> e in entries && IsRecent(e, now)
  {
    if entries != [] {
      var init := entries[..|entries| - 1];
      RecentMembership(init, now, e);
      assert entries == init + [entries[|entries| - 1]];
    }
  }

  /** Filtering distributes over concatenation, so the input order is kept. */
  lemma {:induction false} RecentAppend(a: seq<Entry>, b: seq<Entry>, now: int)
    ensures Recent(a + b, now) == Recent(a, now) + Recent(b, now)
    decreases |b|
  {
    if b == [] {
      assert a + b == a;
    } else {
      var b' := b[..|b| - 1];
      assert (a + b)[..|a + b| - 1] == a + b';
      assert (a + b)[|a + b| - 1] == b[|b| - 1];
      RecentAppend(a, b', now);
    }
  }

  /** Each entry is kept as many times as it occurs when recent, else never. */
  lemma {:induction false} RecentCount(entries: seq<Entry>, now: int, e: Entry)
    ensures multiset(Recent(entries, now))[e] == if IsRecent(e, now) then multiset(entries)[e] else 0
  {
    if entries != [] {
      var init := entries[..|entries| - 1];
      RecentCount(init, now, e);
      assert entries == init + [entries[|entries| - 1]];
    }
  }

  /** The window's lower bound is inclusive: an entry published exactly 24 hours
      before `now` is kept, one a microsecond earlier is dropped, and an entry
      without a publication instant is always dropped. */
  lemma WindowBoundary(e: Entry, now: int)
    ensures e.published == Some(now - Day) ==> IsRecent(e, now)
    ensures e.published == Some(now - Day - 1) ==> !IsRecent(e, now)
    ensures e.published.Some? && e.published.value > now ==> IsRecent(e, now)
    ensures e.published == None ==> !IsRecent(e, now)
  {
  }
}
