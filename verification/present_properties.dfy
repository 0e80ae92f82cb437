/**
  * Properties of the present table computed by `Transform.PresentFhb`:
  * one row per distinct identity, minimal update keys, the meaning of the
  * current flag, independence from duplicates and row order, and two
  * concrete histories.
  */
module PresentProperties {
  import opened Wrappers
  import opened Seqs
  import opened LexOrder
  import opened Transform
  import Extract

  /** Two present rows of one history with the same identity are the same row. */
  lemma PresentRowDeterminedByIdentity(rows: seq<SnapshotRow>, p: PresentRow, q: PresentRow)
    requires IsPresentRow(rows, p) && IsPresentRow(rows, q)
    requires p.identity == q.identity
    ensures p == q
  {
    EarliestUnique(rows, p.identity, p.updateDateKey, q.updateDateKey);
  }

  /** The present row of an identity seen in the history, written from the reference definition. */
  ghost function PresentRowOf(rows: seq<SnapshotRow>, id: Identity): (p: PresentRow)
    requires id in IdentitiesOf(rows)
    ensures IsPresentRow(rows, p) && p.identity == id
  {
    var key := EarliestKey(rows, id);
    PresentRow(id, key, if IsLatestVersion(rows, id.internalCode, key) then Some(CurrentMark) else None)
  }

  /** Every identity seen in the history has its row in the present table. */
  lemma IdentityHasRow(rows: seq<SnapshotRow>, id: Identity)
    requires id in IdentitiesOf(rows)
    ensures exists p :: p in PresentFhb(rows) && p.identity == id
  {
    assert PresentRowOf(rows, id) in PresentFhb(rows);
  }

  /** Rows with pairwise distinct identities are as many as their identities. */
  lemma DistinctIdentityCount(present: seq<PresentRow>, ids: set<Identity>)
    requires forall i, j :: 0 <= i < j < |present| ==> present[i].identity != present[j].identity
    requires forall id :: id in ids <==> exists p :: p in present && p.identity == id
    ensures (set p | p in present :: p.identity) == ids
    ensures |present| == |ids|
  {
    var column := seq(|present|, i requires 0 <= i < |present| => present[i].identity);
    assert NoDuplicates(column);
    forall id | id in ids
      ensures id in column
    {
      var p :| p in present && p.identity == id;
      var i :| 0 <= i < |present| && present[i] == p;
      assert column[i] == id;
    }
    assert (set x | x in column) == ids;
    DistinctCardinality(column);
  }

  /** Exactly one row per distinct identity tuple of the input, and no other identity. */
  lemma OneRowPerIdentity(rows: seq<SnapshotRow>)
    ensures (set p | p in PresentFhb(rows) :: p.identity) == IdentitiesOf(rows)
    ensures |PresentFhb(rows)| == |IdentitiesOf(rows)|
  {
    var present := PresentFhb(rows);
    forall id
      ensures id in IdentitiesOf(rows) <==> exists p :: p in present && p.identity == id
    {
      if id in IdentitiesOf(rows) {
        IdentityHasRow(rows, id);
      }
      if exists p :: p in present && p.identity == id {
        var p :| p in present && p.identity == id;
        assert IsPresentRow(rows, p);
      }
    }
    DistinctIdentityCount(present, IdentitiesOf(rows));
  }

  /** Each `update_date_key` is one of its group's run date keys and no later than any of them. */
  lemma UpdateDateKeyMinimal(rows: seq<SnapshotRow>)
    ensures forall p :: p in PresentFhb(rows) ==>
      exists r :: r in rows && r.identity == p.identity && r.runDateKey == p.updateDateKey
    ensures forall p, r :: p in PresentFhb(rows) && r in rows && r.identity == p.identity ==>
      LexLe(p.updateDateKey, r.runDateKey)
  {
    forall p | p in PresentFhb(rows)
      ensures IsEarliest(rows, p.identity, p.updateDateKey)
    {
      assert IsPresentRow(rows, p);
    }
  }

  /**
    * The flag is "Y" exactly on the rows whose `update_date_key` is the
    * largest among the output rows of the same `internal_code`, null on the
    * others, and never any third value.
    */
  lemma CurrentFlagIsWindowMax(rows: seq<SnapshotRow>, i: int)
    requires 0 <= i < |PresentFhb(rows)|
    ensures PresentFhb(rows)[i].currentFlag == Some(CurrentMark) <==>
      forall j ::
        (0 <= j < |PresentFhb(rows)| &&
         PresentFhb(rows)[j].identity.internalCode == PresentFhb(rows)[i].identity.internalCode) ==>
        LexLe(PresentFhb(rows)[j].updateDateKey, PresentFhb(rows)[i].updateDateKey)
    ensures PresentFhb(rows)[i].currentFlag == None || PresentFhb(rows)[i].currentFlag == Some(CurrentMark)
  {
    var versions := Aggregate(Unique(rows));
    var present := MarkCurrent(versions);
    assert PresentFhb(rows) == present;
    FlagMatchesWindow(versions, present, i);
  }

  /** Rows carrying the versions' identities and keys have the same window maxima as the versions. */
  lemma FlagMatchesWindow(versions: seq<Version>, present: seq<PresentRow>, i: int)
    requires |present| == |versions| && 0 <= i < |versions|
    requires forall k :: 0 <= k < |versions| ==>
      present[k].identity == versions[k].identity && present[k].updateDateKey == versions[k].updateDateKey
    requires present[i].currentFlag == Some(CurrentMark) <==> IsWindowMax(versions, i)
    ensures present[i].currentFlag == Some(CurrentMark) <==>
      forall j :: (0 <= j < |present| && present[j].identity.internalCode == present[i].identity.internalCode) ==>
        LexLe(present[j].updateDateKey, present[i].updateDateKey)
  {
  }

  /** Every internal code of the input has a row flagged current: the maximum is always attained. */
  lemma EveryCodeHasCurrent(rows: seq<SnapshotRow>, r: SnapshotRow)
    requires r in rows
    ensures exists p :: p in PresentFhb(rows) && p.identity.internalCode == r.identity.internalCode && p.currentFlag == Some(CurrentMark)
  {
    var versions := Aggregate(Unique(rows));
    var present := MarkCurrent(versions);
    assert PresentFhb(rows) == present;
    var code := r.identity.internalCode;
    assert r.identity in IdentitiesOf(Unique(rows));
    var latest := LatestUpdate(versions, code);
    var j :| 0 <= j < |versions| && versions[j].identity.internalCode == code && versions[j].updateDateKey == latest.value;
    assert IsWindowMax(versions, j);
    assert present[j] in present;
  }

  /** Rows with the same identities have the same internal codes. */
  lemma CodesFollowIdentities(present: seq<PresentRow>, rows: seq<SnapshotRow>)
    requires (set p | p in present :: p.identity) == IdentitiesOf(rows)
    ensures (set p | p in present :: p.identity.internalCode) == (set r | r in rows :: r.identity.internalCode)
  {
    forall r | r in rows
      ensures r.identity.internalCode in (set p | p in present :: p.identity.internalCode)
    {
      assert r.identity in IdentitiesOf(rows);
      var p :| p in present && p.identity == r.identity;
    }
    forall p | p in present
      ensures p.identity.internalCode in (set r | r in rows :: r.identity.internalCode)
    {
      assert p.identity in IdentitiesOf(rows);
      var r :| r in rows && r.identity == p.identity;
    }
  }

  /** No internal code is lost or invented. */
  lemma CodesPreserved(rows: seq<SnapshotRow>)
    ensures (set p | p in PresentFhb(rows) :: p.identity.internalCode) == (set r | r in rows :: r.identity.internalCode)
  {
    OneRowPerIdentity(rows);
    CodesFollowIdentities(PresentFhb(rows), rows);
  }

  /** No internal code occurs with two different identities on one run date. */
  ghost predicate OneVersionPerRun(rows: seq<SnapshotRow>)
  {
    forall r1, r2 ::
      (r1 in rows && r2 in rows && r1.identity.internalCode == r2.identity.internalCode && r1.runDateKey == r2.runDateKey) ==>
      r1.identity == r2.identity
  }

  /**
    * At most one row per internal code is flagged current, provided no run
    * saw one internal code with two different identities.
    */
  lemma AtMostOneCurrent(rows: seq<SnapshotRow>)
    requires OneVersionPerRun(rows)
    ensures forall i, j ::
      (0 <= i < |PresentFhb(rows)| && 0 <= j < |PresentFhb(rows)| &&
       PresentFhb(rows)[i].identity.internalCode == PresentFhb(rows)[j].identity.internalCode &&
       PresentFhb(rows)[i].currentFlag == Some(CurrentMark) && PresentFhb(rows)[j].currentFlag == Some(CurrentMark)) ==>
      i == j
  {
    var present := PresentFhb(rows);
    forall i, j |
      0 <= i < |present| && 0 <= j < |present| &&
      present[i].identity.internalCode == present[j].identity.internalCode &&
      present[i].currentFlag == Some(CurrentMark) && present[j].currentFlag == Some(CurrentMark)
      ensures i == j
    {
      CurrentRowsCoincide(rows, present[i], present[j]);
    }
  }

  /**
    * Without the one-version-per-run condition the flag is not unique: two
    * identities of product A1 first seen on the same run both reach the
    * window maximum, and both rows are flagged current.
    */
  lemma TieBothFlagged(rows: seq<SnapshotRow>)
    requires rows == [Seen(10, "20240101"), Seen(5, "20240101")]
    ensures !OneVersionPerRun(rows)
    ensures forall p :: p in PresentFhb(rows) <==>
      p == PresentRow(Product(10), "20240101", Some(CurrentMark)) ||
      p == PresentRow(Product(5), "20240101", Some(CurrentMark))
  {
    assert Seen(10, "20240101") in rows && Seen(5, "20240101") in rows;
    TieRows(rows);
    TwoVersionTable(rows, PresentRow(Product(10), "20240101", Some(CurrentMark)),
                    PresentRow(Product(5), "20240101", Some(CurrentMark)));
  }

  /** In the tied history both identities are first seen on day 1, which is also the latest sighting. */
  lemma TieRows(rows: seq<SnapshotRow>)
    requires rows == [Seen(10, "20240101"), Seen(5, "20240101")]
    ensures IdentitiesOf(rows) == {Product(10), Product(5)}
    ensures IsEarliest(rows, Product(10), "20240101") && IsEarliest(rows, Product(5), "20240101")
    ensures IsLatestVersion(rows, Extract.Text("A1"), "20240101")
  {
    LexLeReflexive("20240101");
    assert Seen(10, "20240101") in rows && Seen(5, "20240101") in rows;
    assert SeenBy(rows, Product(10), "20240101");
    assert SeenBy(rows, Product(5), "20240101");
  }

  /** Two current rows of one internal code share a first-seen run, hence (one version per run) an identity. */
  lemma CurrentRowsCoincide(rows: seq<SnapshotRow>, p: PresentRow, q: PresentRow)
    requires OneVersionPerRun(rows)
    requires IsPresentRow(rows, p) && IsPresentRow(rows, q)
    requires p.identity.internalCode == q.identity.internalCode
    requires p.currentFlag == Some(CurrentMark) && q.currentFlag == Some(CurrentMark)
    ensures p == q
  {
    LatestBoundsEarliest(rows, q.identity, q.updateDateKey, p.updateDateKey);
    LatestBoundsEarliest(rows, p.identity, p.updateDateKey, q.updateDateKey);
    LexLeAntisymmetric(p.updateDateKey, q.updateDateKey);
    var rp := EarliestWitness(rows, p.identity, p.updateDateKey);
    var rq := EarliestWitness(rows, q.identity, q.updateDateKey);
    assert rp.identity == rq.identity;
  }

  /** The present table depends only on which rows occur, not on their order or multiplicity. */
  lemma SameRowsSamePresent(a: seq<SnapshotRow>, b: seq<SnapshotRow>)
    requires forall r :: r in a <==> r in b
    ensures forall p :: p in PresentFhb(a) <==> p in PresentFhb(b)
    ensures |PresentFhb(a)| == |PresentFhb(b)|
  {
    forall p
      ensures p in PresentFhb(a) <==> p in PresentFhb(b)
    {
      SameMembersSamePresent(a, b, p);
    }
    OneRowPerIdentity(a);
    OneRowPerIdentity(b);
    assert IdentitiesOf(a) == IdentitiesOf(b);
  }

  /** Running `unique()` first, or again, does not change the present table. */
  lemma DedupDoesNotMatter(rows: seq<SnapshotRow>)
    ensures forall p :: p in PresentFhb(Unique(rows)) <==> p in PresentFhb(rows)
    ensures Unique(Unique(rows)) == Unique(rows)
  {
    SameRowsSamePresent(Unique(rows), rows);
    UniqueIdempotent(rows);
  }

  /** Re-ingesting a snapshot (every row twice) does not change the present table. */
  lemma ReingestDoesNotMatter(rows: seq<SnapshotRow>, again: seq<SnapshotRow>)
    requires forall r :: r in again ==> r in rows
    ensures forall p :: p in PresentFhb(rows + again) <==> p in PresentFhb(rows)
  {
    SameRowsSamePresent(rows + again, rows);
  }

  /** The order in which snapshot files are read does not change the present table. */
  lemma PartitionOrderDoesNotMatter(parts: seq<seq<SnapshotRow>>, shuffled: seq<seq<SnapshotRow>>)
    requires multiset(parts) == multiset(shuffled)
    ensures forall p :: p in PresentFhb(Flatten(parts)) <==> p in PresentFhb(Flatten(shuffled))
  {
    forall r
      ensures r in Flatten(parts) <==> r in Flatten(shuffled)
    {
      FlattenMembership(parts, r);
      FlattenMembership(shuffled, r);
      if r in Flatten(parts) {
        var k :| 0 <= k < |parts| && r in parts[k];
        assert parts[k] in multiset(shuffled);
      }
      if r in Flatten(shuffled) {
        var k :| 0 <= k < |shuffled| && r in shuffled[k];
        assert shuffled[k] in multiset(parts);
      }
    }
    SameRowsSamePresent(Flatten(parts), Flatten(shuffled));
  }

  // ---------------------------------------------------------------------
  // Concrete histories
  // ---------------------------------------------------------------------

  /** Putting the same prefix in front of two strings keeps their text order. */
  lemma {:induction false} LexLeCommonPrefix(c: string, a: string, b: string)
    requires LexLe(a, b)
    ensures LexLe(c + a, c + b)
  {
    if |c| > 0 {
      LexLeCommonPrefix(c[1..], a, b);
      assert (c + a)[1..] == c[1..] + a && (c + b)[1..] == c[1..] + b;
    } else {
      assert c + a == a && c + b == b;
    }
  }

  function Product(stock: int): Identity
  {
    Identity(Extract.Text("A1"), Extract.Text("8588000000001"), Extract.Text("Mug"), Extract.Null,
             Extract.Text("false"), Extract.Int(stock), Extract.Int(stock))
  }

  function Seen(stock: int, key: string): SnapshotRow
  {
    SnapshotRow(Product(stock), key, map[])
  }

  lemma DayOrder()
    ensures LexLe("20240101", "20240102") && !LexLe("20240102", "20240101")
    ensures LexLe("20240102", "20240103") && LexLe("20240101", "20240103")
  {
    LexLeCommonPrefix("2024010", "1", "2");
    LexLeCommonPrefix("2024010", "2", "3");
    LexLeTransitive("20240101", "20240102", "20240103");
    if LexLe("20240102", "20240101") {
      LexLeAntisymmetric("20240102", "20240101");
    }
  }

  /** A history with exactly two identities whose present rows are `a` and `b` has the table {a, b}. */
  lemma TwoVersionTable(rows: seq<SnapshotRow>, a: PresentRow, b: PresentRow)
    requires IsPresentRow(rows, a) && IsPresentRow(rows, b)
    requires IdentitiesOf(rows) == {a.identity, b.identity}
    ensures forall p :: p in PresentFhb(rows) <==> p == a || p == b
  {
    var present := PresentFhb(rows);
    assert a in present && b in present;
    forall p | p in present
      ensures p == a || p == b
    {
      OnlyTwoVersions(rows, a, b, p);
    }
  }

  /** In a history with two identities, a present row is one of theirs. */
  lemma OnlyTwoVersions(rows: seq<SnapshotRow>, a: PresentRow, b: PresentRow, p: PresentRow)
    requires IsPresentRow(rows, a) && IsPresentRow(rows, b) && IsPresentRow(rows, p)
    requires IdentitiesOf(rows) == {a.identity, b.identity}
    ensures p == a || p == b
  {
    if p.identity == a.identity {
      PresentRowDeterminedByIdentity(rows, p, a);
    } else {
      PresentRowDeterminedByIdentity(rows, p, b);
    }
  }

  /** The rows of the two-version histories below: stock 10 on days 1 and 3, stock 5 on day 2. */
  ghost predicate DayHistory(rows: seq<SnapshotRow>)
  {
    && Seen(10, "20240101") in rows
    && Seen(5, "20240102") in rows
    && forall r :: r in rows ==> r == Seen(10, "20240101") || r == Seen(5, "20240102") || r == Seen(10, "20240103")
  }

  /** The stock-5 version, first seen on day 2, is current. */
  lemma DayHistoryCurrent(rows: seq<SnapshotRow>)
    requires DayHistory(rows)
    ensures IsPresentRow(rows, PresentRow(Product(5), "20240102", Some(CurrentMark)))
  {
    DayHistoryIdentities(rows);
    DayHistoryFirstFive(rows);
    DayHistoryLatestFive(rows);
  }

  lemma DayHistoryFirstFive(rows: seq<SnapshotRow>)
    requires DayHistory(rows)
    ensures IsEarliest(rows, Product(5), "20240102")
  {
    LexLeReflexive("20240102");
    assert Seen(5, "20240102") in rows;
  }

  lemma DayHistoryLatestFive(rows: seq<SnapshotRow>)
    requires DayHistory(rows)
    ensures IsLatestVersion(rows, Extract.Text("A1"), "20240102")
  {
    DayOrder();
    LexLeReflexive("20240102");
    assert SeenBy(rows, Product(10), "20240102") by { assert Seen(10, "20240101") in rows; }
    assert SeenBy(rows, Product(5), "20240102") by { assert Seen(5, "20240102") in rows; }
  }

  /** The stock-10 version keeps day 1, its first sighting, and is not current. */
  lemma DayHistoryStale(rows: seq<SnapshotRow>)
    requires DayHistory(rows)
    ensures IsPresentRow(rows, PresentRow(Product(10), "20240101", None))
  {
    DayHistoryIdentities(rows);
    DayHistoryFirstTen(rows);
    DayHistoryTenNotLatest(rows);
  }

  lemma DayHistoryFirstTen(rows: seq<SnapshotRow>)
    requires DayHistory(rows)
    ensures IsEarliest(rows, Product(10), "20240101")
  {
    DayOrder();
    LexLeReflexive("20240101");
    assert Seen(10, "20240101") in rows;
  }

  lemma DayHistoryTenNotLatest(rows: seq<SnapshotRow>)
    requires DayHistory(rows)
    ensures !IsLatestVersion(rows, Extract.Text("A1"), "20240101")
  {
    DayOrder();
    assert Seen(5, "20240102") in rows;
    assert !SeenBy(rows, Product(5), "20240101");
  }

  /** The history holds the two versions and no other. */
  lemma DayHistoryIdentities(rows: seq<SnapshotRow>)
    requires DayHistory(rows)
    ensures IdentitiesOf(rows) == {Product(10), Product(5)}
  {
    assert Seen(10, "20240101") in rows && Seen(5, "20240102") in rows;
  }

  /** Both versions' present rows, as the reference definition gives them. */
  lemma DayTwoVersionsPresent(rows: seq<SnapshotRow>)
    requires DayHistory(rows)
    ensures forall p :: p in PresentFhb(rows) <==>
      p == PresentRow(Product(10), "20240101", None) ||
      p == PresentRow(Product(5), "20240102", Some(CurrentMark))
  {
    DayHistoryCurrent(rows);
    DayHistoryStale(rows);
    DayHistoryIdentities(rows);
    TwoVersionTable(rows, PresentRow(Product(10), "20240101", None), PresentRow(Product(5), "20240102", Some(CurrentMark)));
  }

  /**
    * Two snapshots of product A1: stock 10 on 2024-01-01, stock 5 on
    * 2024-01-02. The present table has the two versions, the later one
    * flagged current.
    */
  lemma StockChangeScenario(rows: seq<SnapshotRow>)
    requires rows == [Seen(10, "20240101"), Seen(5, "20240102")]
    ensures forall p :: p in PresentFhb(rows) <==>
      p == PresentRow(Product(10), "20240101", None) ||
      p == PresentRow(Product(5), "20240102", Some(CurrentMark))
  {
    assert DayHistory(rows);
    DayTwoVersionsPresent(rows);
  }

  /**
    * A product that reverts keeps the earliest date of the reverted version:
    * stock 10 on day 1, 5 on day 2, 10 again on day 3. The stock-10 row keeps
    * update key day 1, so the flag goes to stock 5 although stock 10 is what
    * the latest snapshot shows.
    */
  lemma RevertScenario(rows: seq<SnapshotRow>)
    requires rows == [Seen(10, "20240101"), Seen(5, "20240102"), Seen(10, "20240103")]
    ensures forall p :: p in PresentFhb(rows) <==>
      p == PresentRow(Product(10), "20240101", None) ||
      p == PresentRow(Product(5), "20240102", Some(CurrentMark))
  {
    assert DayHistory(rows);
    DayTwoVersionsPresent(rows);
  }
}
