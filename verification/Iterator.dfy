/**
The pull iterator (iterator.go): batches fetched with a cursor, one message
handed out per call of `Next`. The store is not changed while the iterator runs.
*/
module Iterator {
  import opened Messages
  import opened Paging

  datatype Step = Item | End | Disconnected

  /** `n` is a sum of batches of the given size. */
  predicate WholeBatches(n: nat, size: nat)
    requires size > 0
  {
    n == 0 || (n >= size && WholeBatches(n - size, size))
  }

  lemma {:induction false} WholeAndRest(n: nat, rest: nat, size: nat)
    requires 0 < rest < size && WholeBatches(n, size)
    ensures !WholeBatches(n + rest, size)
  {
    if n != 0 {
      WholeAndRest(n - size, rest, size);
    }
  }

  /** At most `size` messages from the front of the list. */
  function Front(list: seq<Message>, size: nat): seq<Message> {
    if |list| <= size then list else list[..size]
  }

  /** `fetch` pages through `all`: from the start, and from behind any of its messages. */
  predicate Fetches(fetch: Id -> seq<Message>, all: seq<Message>, size: nat) {
    && fetch("") == Front(all, size)
    && forall j {:trigger fetch(all[j].id)} :: 0 <= j < |all| ==> fetch(all[j].id) == Front(all[j + 1..], size)
  }

  // ---------------------------------------------------------------------
  // Both kinds of store can be iterated
  // ---------------------------------------------------------------------

  /** The query the iterator runs, newest first, on a store with index-of-cursor paging. */
  function IndexFetch(all: seq<Message>, size: nat): Id -> seq<Message> {
    (startAfter: Id) => IndexPage(all, startAfter, size).messages
  }

  /** The same query on a store with keyset paging. */
  function KeysetFetch(ms: map<Id, Message>, filter: Message -> bool, size: nat, now: Time): Id -> seq<Message>
    requires WellKeyed(ms)
  {
    (startAfter: Id) =>
      match KeysetFind(ms, filter, startAfter, size, false, now)
      case Found(page) => page.messages
      case CursorNotFound => []
  }

  lemma IndexPageAfter(rows: set<Message>, j: nat, size: nat)
    requires DistinctIds(rows) && j < |rows| && size > 0 && Listing(rows, false)[j].id != ""
    ensures IndexPage(Listing(rows, false), Listing(rows, false)[j].id, size).messages
         == Front(Listing(rows, false)[j + 1..], size)
  {
    ListedOnce(rows, false);
    IndexPageAt(Listing(rows, false), j, size);
  }

  lemma IndexPageAt(list: seq<Message>, j: nat, size: nat)
    requires size > 0 && j < |list| && list[j].id != "" && forall k :: 0 <= k < j ==> list[k].id != list[j].id
    ensures IndexPage(list, list[j].id, size).messages == Front(list[j + 1..], size)
  {
    CursorStartIs(list, list[j].id, j + 1);
    SliceIsFront(list, list[j].id, j + 1, size);
  }

  lemma SliceIsFront(list: seq<Message>, startAfter: Id, start: nat, size: nat)
    requires size > 0 && CursorStart(list, startAfter) == Some(start)
    ensures IndexPage(list, startAfter, size).messages == Front(list[start..], size)
  {
  }

  /** Keyset paging fetches the whole result of the query. */
  lemma KeysetFetches(ms: map<Id, Message>, filter: Message -> bool, size: nat, now: Time)
    requires WellKeyed(ms) && "" !in ms && size > 0
    ensures DistinctIds(Rows(ms, filter, now))
    ensures Fetches(KeysetFetch(ms, filter, size, now), Listing(Rows(ms, filter, now), false), size)
  {
    RowsDistinct(ms, filter, now);
    var rows := Rows(ms, filter, now);
    var list := Listing(rows, false);
    var fetch := KeysetFetch(ms, filter, size, now);
    SamePage(ms, filter, "", size, false, now);
    forall j | 0 <= j < |list| ensures fetch(list[j].id) == Front(list[j + 1..], size) {
      assert list[j] in rows;
      SamePage(ms, filter, list[j].id, size, false, now);
      IndexPageAfter(rows, j, size);
    }
  }

  /** So does index-of-cursor paging on whatever order the in-memory sort produced, when creation
      times are distinct. */
  lemma IndexFetches(ms: map<Id, Message>, filter: Message -> bool, size: nat, now: Time, sorted: seq<Message>)
    requires WellKeyed(ms) && "" !in ms && size > 0
    requires DistinctTimes(Rows(ms, filter, now))
    requires multiset(sorted) == multiset(Rows(ms, filter, now)) && InOrder(sorted, ByCreated, false)
    ensures DistinctIds(Rows(ms, filter, now)) && sorted == Listing(Rows(ms, filter, now), false)
    ensures Fetches(IndexFetch(sorted, size), sorted, size)
  {
    RowsDistinct(ms, filter, now);
    var rows := Rows(ms, filter, now);
    SortedIsListing(sorted, rows, false);
    ListingFetches(rows, size);
  }

  lemma ListingFetches(rows: set<Message>, size: nat)
    requires DistinctIds(rows) && size > 0 && forall m :: m in rows ==> m.id != ""
    ensures Fetches(IndexFetch(Listing(rows, false), size), Listing(rows, false), size)
  {
    var list := Listing(rows, false);
    SliceIsFront(list, "", 0, size);
    assert list[0..] == list;
    forall j | 0 <= j < |list|
      ensures IndexPage(list, list[j].id, size).messages == Front(list[j + 1..], size)
    {
      assert list[j] in rows;
      IndexPageAfter(rows, j, size);
    }
  }

  // ---------------------------------------------------------------------
  // The iterator
  // ---------------------------------------------------------------------

  class BatchIterator {
    const fetch: Id -> seq<Message>
    const batchSize: nat
    ghost const all: seq<Message>   // the whole result of the query

    var startAfter: Id
    var batch: seq<Message>
    var batchIdx: nat
    var done: bool
    var fetched: bool

    ghost var first: nat            // position in `all` of the current batch
    ghost var failed: bool          // the service was found disconnected

    /** How many messages have been handed out. */
    ghost function Position(): nat
      reads this
    {
      first + batchIdx
    }

    /** The current batch is the stretch of `all` at `first`, and the cursor is its last message. */
    ghost predicate InStep()
      reads this`batch, this`first, this`fetched, this`startAfter
    {
      && batchSize > 0
      && Fetches(fetch, all, batchSize)
      && |batch| <= batchSize
      && WholeBatches(first, batchSize)
      && first + |batch| <= |all|
      && batch == all[first..first + |batch|]
      && (!fetched ==> first == 0 && batch == [] && startAfter == "")
      && (fetched && batch != [] ==> startAfter == batch[|batch| - 1].id)
      && (fetched && |batch| < batchSize ==> first + |batch| == |all|)
    }

    ghost predicate Valid()
      reads this
    {
      && InStep()
      && batchIdx <= |batch|
      && (!fetched && done ==> failed)
      && (fetched && batch == [] ==> done)
      && (done && !failed ==> Position() == |all|)
    }

    /** A non-positive batch size stands for 100. */
    constructor (fetch: Id -> seq<Message>, batchSize: int, ghost all: seq<Message>)
      requires Fetches(fetch, all, if batchSize <= 0 then 100 else batchSize)
      ensures Valid() && Position() == 0 && !failed && !done
      ensures this.fetch == fetch && this.all == all
      ensures this.batchSize == if batchSize <= 0 then 100 else batchSize
    {
      this.fetch, this.all := fetch, all;
      this.batchSize := if batchSize <= 0 then 100 else batchSize;
      startAfter, batch, batchIdx, done, fetched := "", [], 0, false, false;
      first, failed := 0, false;
    }

    /** Fetches the batch after a used-up one and moves the cursor to its last message. */
    method NextBatch()
      requires Valid() && !done && batchIdx == |batch| && (fetched ==> |batch| == batchSize)
      modifies this
      ensures InStep() && batchIdx == 0 && fetched && !done && failed == old(failed)
      ensures first == old(Position())
    {
      hide Fetches, WholeBatches;
      NextFront();
      batch := fetch(startAfter);
      first := first + batchIdx;
      batchIdx := 0;
      fetched := true;
      if |batch| > 0 {
        startAfter := batch[|batch| - 1].id;
      }
    }

    /** What the next fetch returns: the stretch of `all` behind the used-up batch. */
    lemma NextFront()
      requires InStep() && (fetched ==> |batch| == batchSize)
      ensures var next := fetch(startAfter); var from := first + |batch|;
              && |next| == (if |all| - from < batchSize then |all| - from else batchSize)
              && next == all[from..from + |next|]
              && WholeBatches(from, batchSize)
    {
      if fetched {
        var j := first + |batch| - 1;
        assert fetch(startAfter) == fetch(all[j].id);
      } else {
        assert all[0..] == all;
      }
    }

    /** Advances to the message at `Position()`, until none is left. After the last one `batchIdx`
        is back at zero, so that `Message` is out of bounds, only when whole batches were read. */
    method Next(connected: bool) returns (r: Step)
      requires Valid()
      modifies this
      ensures Valid()
      ensures old(done) ==> r == End && unchanged(this)
      ensures !old(done) && !connected ==> r == Disconnected && done && failed && Position() == old(Position())
      ensures !old(done) && connected ==> failed == old(failed)
      ensures !old(done) && connected && old(Position()) < |all| ==>
                r == Item && !done && Position() == old(Position()) + 1 && batchIdx > 0
      ensures !old(done) && connected && old(Position()) == |all| ==>
                && r == End && done && Position() == old(Position())
                && (batchIdx == 0 <==> WholeBatches(|all|, batchSize))
    {
      hide Fetches, WholeBatches;
      if done {
        return End;
      }
      if !connected {
        done, failed := true, true;
        return Disconnected;
      }
      if batchIdx >= |batch| {
        if fetched && |batch| < batchSize {
          WholeAndRest(first, |batch|, batchSize);
          done := true;
          return End;
        }
        NextBatch();
        if |batch| == 0 {
          done := true;
          return End;
        }
      }
      batchIdx := batchIdx + 1;
      r := Item;
    }

    /** The current message; out of bounds before the first `Next`. */
    method Message() returns (m: Option<Message>)
      requires Valid()
      ensures m.None? <==> batchIdx == 0
      ensures m.Some? ==> 0 < Position() <= |all| && m.value == all[Position() - 1]
    {
      if batchIdx <= 0 || batchIdx > |batch| {
        return None;
      }
      m := Some(batch[batchIdx - 1]);
    }

    /** The documented loop: every message of the query, in order, each exactly once. */
    method Drain() returns (out: seq<Message>)
      requires Valid() && Position() == 0 && !done && !failed
      modifies this
      ensures Valid() && done && out == all
    {
      hide Fetches, WholeBatches;
      out := [];
      while true
        invariant Valid() && !done && !failed
        invariant out == all[..Position()]
        decreases |all| - Position()
      {
        ghost var p := Position();
        var r := Next(true);
        if r != Item {
          assert all[..|all|] == all;
          return;
        }
        var m := Message();
        assert all[..p + 1] == all[..p] + [all[p]];
        out := out + [m.value];
      }
    }
  }

  /** Streaming a query over either kind of store yields the whole filtered list in order; index-of-cursor
      paging fixes that order only among messages created at different times. */
  method Stream(ms: map<Id, Message>, filter: Message -> bool, now: Time, batchSize: int, keyset: bool) returns (out: seq<Message>)
    requires WellKeyed(ms) && "" !in ms && (!keyset ==> DistinctTimes(Rows(ms, filter, now)))
    ensures DistinctIds(Rows(ms, filter, now))
    ensures out == Listing(Rows(ms, filter, now), false)
  {
    var size := if batchSize <= 0 then 100 else batchSize;
    if keyset {
      KeysetFetches(ms, filter, size, now);
      var it := new BatchIterator(KeysetFetch(ms, filter, size, now), batchSize, Listing(Rows(ms, filter, now), false));
      out := it.Drain();
    } else {
      var _, sorted := MemoryFind(ms, filter, "", size, ByCreated, false, now);
      IndexFetches(ms, filter, size, now, sorted);
      var it := new BatchIterator(IndexFetch(sorted, size), batchSize, sorted);
      out := it.Drain();
    }
  }
}
