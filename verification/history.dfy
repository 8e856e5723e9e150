/**
 * The search history: immutable records in a table whose `id` primary key
 * the store generates, a listing ordered by timestamp with the most recent
 * first, and a bulk delete.
 */
module History {

  /** The range of Kotlin's `Long`, the type of ids and timestamps. */
  const MinLong: int := -0x8000_0000_0000_0000
  const MaxLong: int := 0x7FFF_FFFF_FFFF_FFFF

  type Long = x: int | MinLong <= x <= MaxLong

  /** The id a record carries when the store is to generate one. */
  const AutoId: Long := 0

  /** A history record: every field is fixed at construction. */
  datatype HistoryItem = HistoryItem(id: Long, requestText: string, responseText: string, timestamp: Long)

  /**
   * A record built with the defaults: id left for the store to generate,
   * timestamp taken from the clock (`now` is the current time in epoch
   * milliseconds). Both texts have to be supplied.
   */
  function NewHistoryItem(requestText: string, responseText: string, now: Long): (item: HistoryItem)
    ensures item.id == AutoId
    ensures item.requestText == requestText && item.responseText == responseText
    ensures item.timestamp == now
  {
    HistoryItem(AutoId, requestText, responseText, now)
  }

  // ---------------------------------------------------------------------
  // Ordering of the listing.

  /** Timestamps never increase along the sequence: the most recent record comes first. */
  ghost predicate NewestFirst(s: seq<HistoryItem>)
  {
    forall i, j :: 0 <= i < j < |s| ==> s[i].timestamp >= s[j].timestamp
  }

  /** Puts x in front of the first record that is not more recent than it. */
  function InsertByRecency(x: HistoryItem, s: seq<HistoryItem>): (r: seq<HistoryItem>)
    requires NewestFirst(s)
    ensures NewestFirst(r)
    ensures multiset(r) == multiset(s) + multiset{x}
    ensures |r| == |s| + 1
    ensures r[0] == x || (s != [] && r[0] == s[0])
  {
    if s == [] || s[0].timestamp <= x.timestamp then [x] + s
    else
      var rest := InsertByRecency(x, s[1..]);
      assert s[0].timestamp >= rest[0].timestamp;
      assert s == [s[0]] + s[1..];
      [s[0]] + rest
  }

  /** The rows in `ORDER BY timestamp DESC` order (an insertion sort). */
  function SortByRecency(s: seq<HistoryItem>): (r: seq<HistoryItem>)
    ensures NewestFirst(r)
    ensures multiset(r) == multiset(s)
  {
    if s == [] then []
    else
      assert s == [s[0]] + s[1..];
      InsertByRecency(s[0], SortByRecency(s[1..]))
  }

  // ---------------------------------------------------------------------
  // Primary keys.

  /** No two records share an id. */
  ghost predicate DistinctIds(s: seq<HistoryItem>)
  {
    forall i, j :: 0 <= i < j < |s| ==> s[i].id != s[j].id
  }

  /** Some record in the table has this id. */
  function HasId(s: seq<HistoryItem>, id: int): (found: bool)
    ensures found <==> exists i :: 0 <= i < |s| && s[i].id == id
  {
    if s == [] then false else s[0].id == id || HasId(s[1..], id)
  }

  /** With distinct ids, no record occurs twice. */
  lemma {:induction false} DistinctIdsOccurOnce(s: seq<HistoryItem>, x: HistoryItem)
    requires DistinctIds(s)
    ensures multiset(s)[x] <= 1
  {
    if s != [] {
      assert s == [s[0]] + s[1..];
      assert DistinctIds(s[1..]);
      DistinctIdsOccurOnce(s[1..], x);
      if s[0] == x {
        assert x !in s[1..];
      }
    }
  }

  /** Reordering the rows keeps their ids distinct. */
  lemma DistinctIdsPermutation(a: seq<HistoryItem>, b: seq<HistoryItem>)
    requires DistinctIds(a)
    requires multiset(a) == multiset(b)
    ensures DistinctIds(b)
  {
    forall i, j | 0 <= i < j < |b|
      ensures b[i].id != b[j].id
    {
      if b[i] == b[j] {
        assert b == b[..j] + b[j..];
        assert b[i] in multiset(b[..j]) && b[j] in multiset(b[j..]);
        assert multiset(b)[b[i]] >= 2;
        DistinctIdsOccurOnce(a, b[i]);
      } else {
        assert b[i] in multiset(a) && b[j] in multiset(a);
      }
    }
  }

  // ---------------------------------------------------------------------
  // The table.

  /** Why an insert fails. */
  datatype InsertError =
    | PrimaryKeyConflict   // an explicit id that a stored record already has
    | DatabaseFull         // the largest id has been used, so none can be generated

  datatype InsertOutcome = Inserted | Failed(error: InsertError)

  /**
   * The `history_items` table with its access methods. `lastId` is the
   * largest id the table has ever held (0 before the first insert); it
   * survives a clear, so generated ids are never reused. `issued` records
   * every id ever stored, to state that.
   */
  class HistoryDao {
    var rows: seq<HistoryItem>
    var lastId: Long
    ghost var issued: set<int>

    ghost predicate Valid()
      reads this
    {
      && 0 <= lastId
      && DistinctIds(rows)
      && (forall i :: 0 <= i < |rows| ==> rows[i].id in issued)
      && (forall id :: id in issued ==> id <= lastId)
    }

    constructor ()
      ensures Valid() && rows == [] && lastId == 0 && issued == {}
    {
      rows := [];
      lastId := 0;
      issued := {};
    }

    /**
     * `insert`: an item with id 0 is stored under the next generated id;
     * any other id is stored as given unless a row already has it. Either
     * way exactly one row is appended and the others stay as they were; on
     * failure nothing changes.
     */
    method Insert(item: HistoryItem) returns (outcome: InsertOutcome)
      requires Valid()
      modifies this
      ensures Valid()
      ensures item.id == AutoId && old(lastId) < MaxLong ==>
                && outcome == Inserted
                && lastId == old(lastId) + 1
                && rows == old(rows) + [item.(id := lastId)]
      ensures item.id == AutoId && old(lastId) == MaxLong ==>
                outcome == Failed(DatabaseFull) && rows == old(rows) && lastId == old(lastId)
      ensures item.id != AutoId && HasId(old(rows), item.id) ==>
                outcome == Failed(PrimaryKeyConflict) && rows == old(rows) && lastId == old(lastId)
      ensures item.id != AutoId && !HasId(old(rows), item.id) ==>
                && outcome == Inserted
                && rows == old(rows) + [item]
                && lastId == if item.id > old(lastId) then item.id else old(lastId)
      ensures outcome == Inserted ==> issued == old(issued) + {rows[|rows| - 1].id}
      ensures outcome.Failed? ==> issued == old(issued)
      ensures outcome == Inserted && item.id == AutoId ==> rows[|rows| - 1].id !in old(issued)
    {
      if item.id == AutoId {
        if lastId == MaxLong {
          return Failed(DatabaseFull);
        }
        lastId := lastId + 1;
        rows := rows + [item.(id := lastId)];
        issued := issued + {lastId};
        return Inserted;
      }
      if HasId(rows, item.id) {
        return Failed(PrimaryKeyConflict);
      }
      rows := rows + [item];
      if item.id > lastId {
        lastId := item.id;
      }
      issued := issued + {item.id};
      return Inserted;
    }

    /** `getAllHistoryItems`: every row exactly once, most recent first; the table is only read. */
    method GetAllHistoryItems() returns (items: seq<HistoryItem>)
      requires Valid()
      ensures NewestFirst(items)
      ensures multiset(items) == multiset(rows)
      ensures |items| == |rows|
      ensures DistinctIds(items)
    {
      items := SortByRecency(rows);
      assert |items| == |multiset(items)| == |multiset(rows)| == |rows|;
      DistinctIdsPermutation(rows, items);
    }

    /** `clearHistory`: deletes every row; the id sequence is kept. */
    method ClearHistory()
      requires Valid()
      modifies this
      ensures Valid()
      ensures rows == [] && lastId == old(lastId) && issued == old(issued)
    {
      rows := [];
    }
  }
}
