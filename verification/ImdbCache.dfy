/** The ratings cache: a batched rebuild and a chunked read that must agree with a plain map. */
module ImdbCache {
  import opened Basics

  const UPSERT_BATCH_SIZE := 5000
  const READ_CHUNK_SIZE := 900

  datatype Rating = Rating(rating: Option<real>, voteCount: Option<int>)

  datatype Row = Row(imdbId: string, rating: Rating)

  /** What the table keeps per title. */
  datatype Stored = Stored(rating: Rating, sourceUpdatedAt: Option<string>, refreshedAt: string)

  datatype Metadata = Metadata(dataset: string, sourceUpdatedAt: Option<string>, refreshedAt: string, rowCount: Option<nat>)

  datatype Database = Database(ratings: map<string, Stored>, metadata: Option<Metadata>)

  datatype Outcome = Replaced(rowCount: nat) | NoRows | SourceFailed

  // -------------------------------------------------------------------------------------------
  // One-by-one upserts

  function Stamped(row: Row, metadata: Metadata): Stored {
    Stored(row.rating, metadata.sourceUpdatedAt, metadata.refreshedAt)
  }

  function Upserted(table: map<string, Stored>, rows: seq<Row>, metadata: Metadata): map<string, Stored>
    decreases |rows|
  {
    if rows == [] then table
    else Upserted(table[rows[0].imdbId := Stamped(rows[0], metadata)], rows[1..], metadata)
  }

  /** Splitting the rows into batches makes no difference. */
  lemma {:induction false} UpsertInBatches(table: map<string, Stored>, a: seq<Row>, b: seq<Row>, metadata: Metadata)
    ensures Upserted(table, a + b, metadata) == Upserted(Upserted(table, a, metadata), b, metadata)
    decreases |a|
  {
    if a == [] {
      assert a + b == b;
    } else {
      assert (a + b)[1..] == a[1..] + b;
      UpsertInBatches(table[a[0].imdbId := Stamped(a[0], metadata)], a[1..], b, metadata);
    }
  }

  /** The last row about a title. */
  function LastRow(rows: seq<Row>, imdbId: string): (last: Option<Row>)
    ensures last.Some? <==> exists i :: 0 <= i < |rows| && rows[i].imdbId == imdbId
    ensures last.Some? ==>
              exists i :: 0 <= i < |rows| && rows[i] == last.value && rows[i].imdbId == imdbId
                          && forall j :: i < j < |rows| ==> rows[j].imdbId != imdbId
  {
    if rows == [] then None
    else
      var end := |rows| - 1;
      if rows[end].imdbId == imdbId then
        Some(rows[end])
      else
        var last := LastRow(rows[..end], imdbId);
        assert forall i :: 0 <= i < end ==> rows[..end][i] == rows[i];
        last
  }

  /** The last row about a title wins; titles without a row keep what was stored. */
  lemma {:induction false} LastRowWins(table: map<string, Stored>, rows: seq<Row>, metadata: Metadata, imdbId: string)
    ensures var after := Upserted(table, rows, metadata);
            match LastRow(rows, imdbId)
            case Some(row) =>
              imdbId in after && after[imdbId] == Stored(row.rating, metadata.sourceUpdatedAt, metadata.refreshedAt)
            case None => (imdbId in after <==> imdbId in table) && (imdbId in table ==> after[imdbId] == table[imdbId])
    decreases |rows|
  {
    if rows != [] {
      var end := |rows| - 1;
      LastRowWins(table, rows[..end], metadata, imdbId);
      assert rows == rows[..end] + [rows[end]];
      UpsertInBatches(table, rows[..end], [rows[end]], metadata);
      var before := Upserted(table, rows[..end], metadata);
      assert Upserted(before, [rows[end]], metadata) == before[rows[end].imdbId := Stamped(rows[end], metadata)];
    }
  }

  // -------------------------------------------------------------------------------------------
  // Reading

  /** The stored ratings of the requested, non-empty ids. */
  function Lookup(table: map<string, Stored>, ids: set<string>): map<string, Rating> {
    map id | id in table && id in ids && id != "" :: table[id].rating
  }

  method Enumerate(ids: set<string>) returns (list: seq<string>)
    ensures forall id :: id in list <==> id in ids
    ensures |list| == |ids|
  {
    list := [];
    var left := ids;
    while left != {}
      invariant left <= ids
      invariant forall id :: id in list <==> id in ids - left
      invariant |list| + |left| == |ids|
    {
      var id :| id in left;
      left := left - {id};
      list := list + [id];
    }
  }

  // -------------------------------------------------------------------------------------------
  // The cache file and the temporary file beside it

  class Cache {
    var database: Option<Database>
    var temporary: Option<Database>

    constructor ()
      ensures database.None? && temporary.None?
    {
      database, temporary := None, None;
    }

    method InsertBatch(batch: seq<Row>, metadata: Metadata)
      requires temporary.Some?
      modifies this`temporary
      ensures temporary == Some(old(temporary).value.(ratings := Upserted(old(temporary).value.ratings, batch, metadata)))
    {
      ghost var before := temporary.value.ratings;
      for i := 0 to |batch|
        invariant temporary.Some? && temporary.value.metadata == old(temporary).value.metadata
        invariant Upserted(temporary.value.ratings, batch[i..], metadata) == Upserted(before, batch, metadata)
      {
        var row := batch[i];
        assert batch[i..][0] == row && batch[i..][1..] == batch[i + 1..];
        temporary := Some(temporary.value.(ratings := temporary.value.ratings[row.imdbId := Stamped(row, metadata)]));
      }
    }

    /**
     Rebuilds the cache from a stream of rows that may fail before yielding row number `failsAt`.
     Either the new cache holds every row, or the old one stays; no temporary file is left behind.
     */
    method ReplaceCache(rows: seq<Row>, failsAt: Option<nat>, metadata: Metadata) returns (outcome: Outcome)
      modifies this
      ensures temporary.None?
      ensures outcome.SourceFailed? <==> failsAt.Some? && failsAt.value <= |rows|
      ensures outcome.Replaced? <==> !outcome.SourceFailed? && rows != []
      ensures outcome.Replaced? ==>
                && outcome.rowCount == |rows|
                && database == Some(Database(Upserted(map[], rows, metadata), Some(metadata.(rowCount := Some(|rows|)))))
      ensures !outcome.Replaced? ==> database == old(database)
    {
      temporary := None;
      temporary := Some(Database(map[], None));
      var rowCount := 0;
      var batch: seq<Row> := [];
      var i := 0;
      while i < |rows|
        invariant 0 <= i <= |rows| && database == old(database)
        invariant |batch| < UPSERT_BATCH_SIZE
        invariant 0 <= rowCount <= i && batch == rows[rowCount..i]
        invariant temporary == Some(Database(Upserted(map[], rows[..rowCount], metadata), None))
        invariant failsAt.Some? ==> failsAt.value >= i
      {
        if failsAt == Some(i) {
          temporary := None;
          return SourceFailed;
        }
        batch := batch + [rows[i]];
        i := i + 1;
        assert batch == rows[rowCount..i];
        if |batch| >= UPSERT_BATCH_SIZE {
          InsertBatch(batch, metadata);
          BatchExtends(rows, rowCount, i, metadata);
          rowCount := rowCount + |batch|;
          assert rowCount == i;
          batch := [];
        }
      }
      if failsAt == Some(|rows|) {
        temporary := None;
        return SourceFailed;
      }
      if batch != [] {
        InsertBatch(batch, metadata);
        BatchExtends(rows, rowCount, i, metadata);
        rowCount := rowCount + |batch|;
      }
      if rowCount <= 0 {
        temporary := None;
        return NoRows;
      }
      assert rows[..rowCount] == rows;
      temporary := Some(temporary.value.(metadata := Some(metadata.(rowCount := Some(rowCount)))));
      database, temporary := temporary, None;
      return Replaced(rowCount);
    }

    method GetCachedRatings(ids: seq<string>) returns (ratings: map<string, Rating>)
      ensures database.None? ==> ratings == map[]
      ensures database.Some? ==> ratings == Lookup(database.value.ratings, set id | id in ids)
    {
      if database.None? {
        return map[];
      }
      ghost var table := database.value.ratings;
      var uniqueIds := Enumerate(set id | id in ids && id != "");
      ratings := map[];
      var start := 0;
      while start < |uniqueIds|
        invariant 0 <= start <= |uniqueIds|
        invariant ratings == map id | id in table && id in uniqueIds[..start] :: table[id].rating
      {
        var end := if start + READ_CHUNK_SIZE <= |uniqueIds| then start + READ_CHUNK_SIZE else |uniqueIds|;
        var chunk := uniqueIds[start..end];
        ratings := ratings + map id | id in database.value.ratings && id in chunk :: database.value.ratings[id].rating;
        assert uniqueIds[..end] == uniqueIds[..start] + chunk;
        start := end;
      }
      assert uniqueIds[..start] == uniqueIds;
    }
  }

  lemma BatchExtends(rows: seq<Row>, done: nat, end: nat, metadata: Metadata)
    requires done <= end <= |rows|
    ensures Upserted(Upserted(map[], rows[..done], metadata), rows[done..end], metadata)
            == Upserted(map[], rows[..end], metadata)
  {
    assert rows[..end] == rows[..done] + rows[done..end];
    UpsertInBatches(map[], rows[..done], rows[done..end], metadata);
  }

  /** Reading back a rebuilt cache yields the last row of each requested title and nothing else. */
  lemma ReadBack(rows: seq<Row>, metadata: Metadata, ids: set<string>, imdbId: string)
    ensures var ratings := Lookup(Upserted(map[], rows, metadata), ids);
            && (imdbId in ratings <==> imdbId in ids && imdbId != "" && LastRow(rows, imdbId).Some?)
            && (imdbId in ratings ==> ratings[imdbId] == LastRow(rows, imdbId).value.rating)
  {
    LastRowWins(map[], rows, metadata, imdbId);
  }
}
