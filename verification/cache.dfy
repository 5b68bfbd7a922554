/**
 The local store as a value: the `feeds` and `entries` tables with their
 auto-increment counters, and the DAO operations the repository calls
 (`FeedDao` and `EntryDao`).
 */
module Cache {
  import opened Model

  /**
   Both tables in row order, and the last key each table's auto-increment
   counter handed out.
   */
  datatype Store = Store(feeds: seq<Feed>, entries: seq<Entry>, lastFeedId: nat, lastEntryId: nat)

  /** `SELECT * FROM entries WHERE feedKey = :key`: the rows of one feed, in row order. */
  function EntriesFor(es: seq<Entry>, key: string): (r: seq<Entry>)
    ensures forall e :: e in r <==> e in es && e.feedKey == key
    ensures |r| <= |es|
  {
    if es == [] then [] else (if es[0].feedKey == key then [es[0]] else []) + EntriesFor(es[1..], key)
  }

  /** The rows `DELETE FROM entries WHERE feedKey = :key` leaves, in row order. */
  function EntriesNotFor(es: seq<Entry>, key: string): (r: seq<Entry>)
    ensures forall e :: e in r <==> e in es && e.feedKey != key
    ensures |r| <= |es|
  {
    if es == [] then [] else (if es[0].feedKey != key then [es[0]] else []) + EntriesNotFor(es[1..], key)
  }

  lemma {:induction false} EntriesForAppend(a: seq<Entry>, b: seq<Entry>, key: string)
    ensures EntriesFor(a + b, key) == EntriesFor(a, key) + EntriesFor(b, key)
  {
    if a != [] {
      assert (a + b)[1..] == a[1..] + b;
      EntriesForAppend(a[1..], b, key);
    } else {
      assert a + b == b;
    }
  }

  /** Rows that all belong to `key` are selected whole. */
  lemma {:induction false} EntriesForOwned(es: seq<Entry>, key: string)
    requires forall i :: 0 <= i < |es| ==> es[i].feedKey == key
    ensures EntriesFor(es, key) == es
  {
    if es != [] {
      EntriesForOwned(es[1..], key);
    }
  }

  /** Rows none of which belong to `key` select nothing. */
  lemma {:induction false} EntriesForNone(es: seq<Entry>, key: string)
    requires forall i :: 0 <= i < |es| ==> es[i].feedKey != key
    ensures EntriesFor(es, key) == []
  {
    if es != [] {
      EntriesForNone(es[1..], key);
    }
  }

  /** Deleting the rows of `key` leaves the rows of every other key as they were, in the same order. */
  lemma {:induction false} EntriesForAfterDelete(es: seq<Entry>, deleted: string, key: string)
    requires deleted != key
    ensures EntriesFor(EntriesNotFor(es, deleted), key) == EntriesFor(es, key)
  {
    if es != [] {
      EntriesForAfterDelete(es[1..], deleted, key);
      var head := if es[0].feedKey != deleted then [es[0]] else [];
      EntriesForAppend(head, EntriesNotFor(es[1..], deleted), key);
    }
  }

  /** Deleting the rows of `key` leaves none of them. */
  lemma {:induction false} EntriesForDeleted(es: seq<Entry>, key: string)
    ensures EntriesFor(EntriesNotFor(es, key), key) == []
  {
    if es != [] {
      EntriesForDeleted(es[1..], key);
      var head := if es[0].feedKey != key then [es[0]] else [];
      EntriesForAppend(head, EntriesNotFor(es[1..], key), key);
    }
  }

  /** The rows with fresh keys `last + 1`, `last + 2`, ... in order. */
  function FeedsWithIds(fs: seq<Feed>, last: nat): (r: seq<Feed>)
    ensures |r| == |fs|
    ensures forall i :: 0 <= i < |fs| ==> r[i] == fs[i].(id := last + 1 + i)
  {
    if fs == [] then [] else [fs[0].(id := last + 1)] + FeedsWithIds(fs[1..], last + 1)
  }

  function EntriesWithIds(es: seq<Entry>, last: nat): (r: seq<Entry>)
    ensures |r| == |es|
    ensures forall i :: 0 <= i < |es| ==> r[i] == es[i].(id := last + 1 + i)
  {
    if es == [] then [] else [es[0].(id := last + 1)] + EntriesWithIds(es[1..], last + 1)
  }

  /** `FeedDao.deleteAll()`: `DELETE FROM feeds`. */
  function DeleteAllFeeds(s: Store): (r: Store)
    ensures r.feeds == [] && r.entries == s.entries
  {
    s.(feeds := [])
  }

  /**
   `FeedDao.insertList`: rows whose key is 0 (all the repository inserts) get
   the next counter values and go after the existing rows.
   */
  function InsertFeeds(s: Store, fs: seq<Feed>): (r: Store)
    ensures r.entries == s.entries && |r.feeds| == |s.feeds| + |fs| && r.feeds[..|s.feeds|] == s.feeds
    ensures SameFeedsUpToId(r.feeds[|s.feeds|..], fs)
  {
    s.(feeds := s.feeds + FeedsWithIds(fs, s.lastFeedId), lastFeedId := s.lastFeedId + |fs|)
  }

  /** `EntryDao.delete(key)`: `DELETE FROM entries WHERE feedKey = :key`. */
  function DeleteEntries(s: Store, key: string): (r: Store)
    ensures r.feeds == s.feeds && EntriesFor(r.entries, key) == []
  {
    EntriesForDeleted(s.entries, key);
    s.(entries := EntriesNotFor(s.entries, key))
  }

  /** `EntryDao.insertList`, as `InsertFeeds`. */
  function InsertEntries(s: Store, es: seq<Entry>): (r: Store)
    ensures r.feeds == s.feeds && |r.entries| == |s.entries| + |es| && r.entries[..|s.entries|] == s.entries
    ensures SameEntriesUpToId(r.entries[|s.entries|..], es)
  {
    s.(entries := s.entries + EntriesWithIds(es, s.lastEntryId), lastEntryId := s.lastEntryId + |es|)
  }

  /** One DAO call, as the repository issues them. */
  datatype StoreCall =
    | ReadFeeds
    | ClearFeeds
    | AddFeeds(feeds: seq<Feed>)
    | ReadEntries(key: string)
    | ClearEntries(key: string)
    | AddEntries(entries: seq<Entry>)

  predicate IsWrite(c: StoreCall) {
    c.ClearFeeds? || c.AddFeeds? || c.ClearEntries? || c.AddEntries?
  }

  /** The effect of one call on the store; reads change nothing. */
  function Apply(s: Store, c: StoreCall): Store {
    match c
    case ReadFeeds => s
    case ClearFeeds => DeleteAllFeeds(s)
    case AddFeeds(fs) => InsertFeeds(s, fs)
    case ReadEntries(_) => s
    case ClearEntries(key) => DeleteEntries(s, key)
    case AddEntries(es) => InsertEntries(s, es)
  }

  /** The store after a sequence of calls, first call first. */
  function Replay(s: Store, calls: seq<StoreCall>): Store
    decreases |calls|
  {
    if calls == [] then s else Replay(Apply(s, calls[0]), calls[1..])
  }

  /** A read leaves the store as it is. */
  lemma ReplayRead(s: Store, c: StoreCall)
    requires !IsWrite(c)
    ensures Replay(s, [c]) == s
  {
    assert Replay(s, [c]) == Replay(Apply(s, c), []);
  }

  lemma ReplayThree(s: Store, c0: StoreCall, c1: StoreCall, c2: StoreCall)
    requires !IsWrite(c2)
    ensures Replay(s, [c0, c1, c2]) == Apply(Apply(s, c0), c1)
  {
    var s1 := Apply(s, c0);
    assert Replay(s, [c0, c1, c2]) == Replay(s1, [c1, c2]);
    assert [c1, c2][1..] == [c2];
    ReplayRead(Apply(s1, c1), c2);
  }
}
