/**
  * The pure parts of the extract stage: coercing the inferred column types,
  * the paging arithmetic and page loop of the catalog download, the
  * product-count check, and stamping every row of a snapshot with its run
  * date key. HTTP, JSON and Parquet I/O are left to the caller: pages arrive
  * as a function from page number to the records that page lists.
  */
module Extract {
  import opened Seqs
  import opened Wrappers
  import opened RunDate

  /** One value of a record or a table cell. */
  datatype Cell = Null | Bool(b: bool) | Int(i: int) | Text(text: string)

  /** A record or table row: column name to value. */
  type Row = map<string, Cell>

  // ---------------------------------------------------------------------
  // Schema coercion (`_get_schema_from_json`)
  // ---------------------------------------------------------------------

  /** The column types the inference can report; `NullType` is Polars' Null type, `Other` stands for every remaining one. */
  datatype ColType = NullType | Boolean | Utf8 | Int64 | Float64 | Other(name: string)

  /** The inferred schema: column name to type. */
  type Schema = map<string, ColType>

  /** Types that are widened to text: an all-null column, or a boolean one. */
  predicate IsWidened(t: ColType)
  {
    t == NullType || t == Boolean
  }

  /** One column's coercion: Null and Boolean become Utf8, every other type is kept. */
  function CoerceType(t: ColType): (u: ColType)
    ensures IsWidened(t) ==> u == Utf8
    ensures !IsWidened(t) ==> u == t
    ensures !IsWidened(u)
  {
    if IsWidened(t) then Utf8 else t
  }

  /** Rewrites Null and Boolean columns to Utf8 and keeps every other column's type. */
  function CoerceSchema(schema: Schema): (coerced: Schema)
    ensures coerced.Keys == schema.Keys
    ensures forall name :: name in schema && IsWidened(schema[name]) ==> coerced[name] == Utf8
    ensures forall name :: name in schema && !IsWidened(schema[name]) ==> coerced[name] == schema[name]
    ensures forall name :: name in coerced ==> !IsWidened(coerced[name])
  {
    map name | name in schema :: CoerceType(schema[name])
  }

  /** Coercing an already coerced schema changes nothing. */
  lemma CoerceSchemaIdempotent(schema: Schema)
    ensures CoerceSchema(CoerceSchema(schema)) == CoerceSchema(schema)
  {
    var once := CoerceSchema(schema);
    assert forall name :: name in once ==> CoerceSchema(once)[name] == once[name];
  }

  /** Coercion leaves a schema unchanged exactly when it has no Null or Boolean column. */
  lemma CoerceSchemaFixedPoint(schema: Schema)
    ensures CoerceSchema(schema) == schema <==> forall name :: name in schema ==> !IsWidened(schema[name])
  {
    if forall name :: name in schema ==> !IsWidened(schema[name]) {
      assert forall name :: name in schema ==> CoerceSchema(schema)[name] == schema[name];
    }
  }

  // ---------------------------------------------------------------------
  // Paging (`get_json_fhb_products`)
  // ---------------------------------------------------------------------

  /** Items per page served by the catalog API. */
  const PageSize: int := 250

  /** Python's `int(a / b)` for `b > 0`: the quotient truncated toward zero. */
  function TruncDiv(a: int, b: int): (q: int)
    requires b > 0
    ensures a >= 0 ==> q * b <= a < (q + 1) * b
    ensures a < 0 ==> (q - 1) * b < a <= q * b
  {
    if a >= 0 then a / b else -((-a) / b)
  }

  /** `int(total / 250) + 1`: the number of pages requested for a reported total. */
  function PageCount(total: int): (pages: int)
    ensures total >= 0 ==> pages >= 1 && (pages - 1) * PageSize <= total < pages * PageSize
    ensures total >= 0 && total % PageSize == 0 ==> (pages - 1) * PageSize == total
    ensures total < 0 ==> pages <= 1
    ensures total < 0 ==> (pages == 1 <==> total > -PageSize)
  {
    TruncDiv(total, PageSize) + 1
  }

  /** The page numbers `range(pages)` shifted by one: 1, 2, ..., pages (none when pages <= 0). */
  function PageNumbers(pages: int): (numbers: seq<int>)
    ensures |numbers| == (if pages > 0 then pages else 0)
    ensures forall i :: 0 <= i < |numbers| ==> numbers[i] == i + 1
  {
    if pages <= 0 then [] else PageNumbers(pages - 1) + [pages]
  }

  /** The outcome of comparing the reported total with the number of records collected. */
  datatype CountCheck = Passed | Failed

  function CheckCount(total: int, collected: nat): (c: CountCheck)
    ensures c == Passed <==> total == collected
    ensures c == Failed <==> total != collected
  {
    if total == collected then Passed else Failed
  }

  /**
    * The download loop: requests pages 1..PageCount(total) in order, one
    * after the other, appending each page's records, then runs the count
    * check. A failed check is reported, never fatal: the records are
    * returned either way.
    */
  method FetchAllProducts(total: int, fetchPage: int -> seq<Row>)
    returns (pages: int, requested: seq<int>, products: seq<Row>, check: CountCheck)
    ensures pages == PageCount(total)
    ensures |requested| == (if pages > 0 then pages else 0)
    ensures requested == PageNumbers(pages)
    ensures forall i :: 0 <= i < |requested| ==> requested[i] == i + 1
    ensures products == Flatten(seq(|requested|, i requires 0 <= i < |requested| => fetchPage(requested[i])))
    ensures |products| == TotalLength(seq(|requested|, i requires 0 <= i < |requested| => fetchPage(requested[i])))
    ensures check == Passed <==> total == |products|
  {
    pages := PageCount(total);
    requested := [];
    products := [];
    var p := 0;
    while p < pages
      invariant 0 <= p <= (if pages > 0 then pages else 0)
      invariant |requested| == p
      invariant requested == PageNumbers(p)
      invariant products == Flatten(seq(p, i requires 0 <= i < p => fetchPage(requested[i])))
    {
      ghost var before := seq(p, i requires 0 <= i < p => fetchPage(requested[i]));
      requested := requested + [p + 1];
      ghost var after := seq(p + 1, i requires 0 <= i < p + 1 => fetchPage(requested[i]));
      assert after == before + [fetchPage(p + 1)];
      FlattenAppend(before, [fetchPage(p + 1)]);
      assert Flatten([fetchPage(p + 1)]) == fetchPage(p + 1) + [];
      products := products + fetchPage(p + 1);
      p := p + 1;
    }
    check := CheckCount(total, |products|);
  }

  /** What a consistent catalog holding `items` serves for page `page` (1-based). */
  function ServedPage(items: seq<Row>, page: int): (served: seq<Row>)
    ensures page >= 1 && (page - 1) * PageSize >= |items| ==> served == []
  {
    if page < 1 then []
    else
      var lo := if (page - 1) * PageSize <= |items| then (page - 1) * PageSize else |items|;
      var hi := if page * PageSize <= |items| then page * PageSize else |items|;
      items[lo..hi]
  }

  /** The responses to pages 1..n from a consistent catalog. */
  function ServedPages(items: seq<Row>, n: nat): seq<seq<Row>>
  {
    seq(n, i requires 0 <= i < n => ServedPage(items, i + 1))
  }

  /** The first `n` pages of a consistent catalog concatenate to a prefix of its items. */
  lemma {:induction false} ServedPrefix(items: seq<Row>, n: nat)
    ensures Flatten(ServedPages(items, n)) == items[..if n * PageSize <= |items| then n * PageSize else |items|]
  {
    if n > 0 {
      ServedPrefix(items, n - 1);
      assert ServedPages(items, n) == ServedPages(items, n - 1) + [ServedPage(items, n)];
      FlattenAppend(ServedPages(items, n - 1), [ServedPage(items, n)]);
      assert Flatten([ServedPage(items, n)]) == ServedPage(items, n) + [];
    }
  }

  /**
    * Pagination completeness: when the catalog reports its true total and
    * serves its items 250 per page, the pages requested concatenate to
    * exactly its items, so the count check passes.
    */
  lemma PaginationComplete(items: seq<Row>)
    ensures PageCount(|items|) >= 1
    ensures Flatten(ServedPages(items, PageCount(|items|))) == items
    ensures CheckCount(|items|, |Flatten(ServedPages(items, PageCount(|items|)))|) == Passed
  {
    ServedPrefix(items, PageCount(|items|));
  }

  /**
    * Completeness of the download loop itself: run against a consistent
    * catalog that reports its true total, it collects exactly the catalog's
    * items and the count check passes.
    */
  method FetchConsistentCatalog(items: seq<Row>) returns (products: seq<Row>, check: CountCheck)
    ensures products == items
    ensures check == Passed
  {
    var fetchPage := p => ServedPage(items, p);
    var pages, requested;
    pages, requested, products, check := FetchAllProducts(|items|, fetchPage);
    PaginationComplete(items);
    assert seq(|requested|, i requires 0 <= i < |requested| => fetchPage(requested[i]))
        == ServedPages(items, PageCount(|items|));
  }

  /** When the total is a multiple of 250 the last page requested is empty. */
  lemma BoundaryPageEmpty(items: seq<Row>)
    requires |items| % PageSize == 0
    ensures ServedPage(items, PageCount(|items|)) == []
  {
  }

  // ---------------------------------------------------------------------
  // Stamping (`get_fhb_products`)
  // ---------------------------------------------------------------------

  /** The column `with_columns(pl.lit(run_date_key).alias("run_date_key"))` adds. */
  const RunDateKeyColumn: string := "run_date_key"

  /** Adds (or overwrites) the run date key column on every row. */
  function Stamp(rows: seq<Row>, key: string): (stamped: seq<Row>)
    ensures |stamped| == |rows|
    ensures forall i :: 0 <= i < |rows| ==> stamped[i].Keys == rows[i].Keys + {RunDateKeyColumn}
    ensures forall i :: 0 <= i < |rows| ==> stamped[i][RunDateKeyColumn] == Text(key)
    ensures forall i, c :: 0 <= i < |rows| && c in rows[i] && c != RunDateKeyColumn ==> stamped[i][c] == rows[i][c]
  {
    seq(|rows|, i requires 0 <= i < |rows| => rows[i][RunDateKeyColumn := Text(key)])
  }

  /** Drops the run date key column from every row. */
  function Unstamp(rows: seq<Row>): (plain: seq<Row>)
    ensures |plain| == |rows|
  {
    seq(|rows|, i requires 0 <= i < |rows| => rows[i] - {RunDateKeyColumn})
  }

  /** Stamping loses nothing: rows without a `run_date_key` column come back unchanged. */
  lemma StampRoundTrip(rows: seq<Row>, key: string)
    requires forall i :: 0 <= i < |rows| ==> RunDateKeyColumn !in rows[i]
    ensures Unstamp(Stamp(rows, key)) == rows
  {
    var back := Unstamp(Stamp(rows, key));
    forall i | 0 <= i < |rows|
      ensures back[i] == rows[i]
    {
      assert back[i].Keys == rows[i].Keys;
    }
  }

  /** The snapshot of one run: every row stamped with `run_date.strftime("%Y%m%d")`. */
  function Snapshot(rows: seq<Row>, runDate: Date): (snapshot: seq<Row>)
    requires ValidDate(runDate)
    ensures |snapshot| == |rows|
    ensures forall i :: 0 <= i < |snapshot| ==>
      RunDateKeyColumn in snapshot[i] && snapshot[i][RunDateKeyColumn].Text? &&
      ParseRunDateKey(snapshot[i][RunDateKeyColumn].text) == Some(runDate)
  {
    RunDateKeyRoundTrip(runDate);
    Stamp(rows, RunDateKey(runDate))
  }

  /** All rows of one snapshot carry the same eight-digit run date key. */
  lemma SnapshotKeyUniform(rows: seq<Row>, runDate: Date)
    requires ValidDate(runDate)
    ensures forall i, j :: 0 <= i < |rows| && 0 <= j < |rows| ==>
      Snapshot(rows, runDate)[i][RunDateKeyColumn] == Snapshot(rows, runDate)[j][RunDateKeyColumn]
    ensures forall i :: 0 <= i < |rows| ==>
      Snapshot(rows, runDate)[i][RunDateKeyColumn] == Text(RunDateKey(runDate))
  {
  }
}
