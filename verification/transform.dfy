/**
  * The current-state aggregation `present_fhb`: all historical snapshot rows
  * are deduplicated, grouped by the seven identity columns, each group gets
  * the earliest run date key it was seen with (`update_date_key`), and the
  * groups whose `update_date_key` is the largest among the groups of the same
  * `internal_code` are flagged current with "Y"; the others get null.
  */
module Transform {
  import opened Wrappers
  import opened Seqs
  import opened LexOrder
  import Extract

  type Cell = Extract.Cell

  /** The grouping columns: internal_code, ean, name, photo, archived, stock_quantity, free_quantity. */
  datatype Identity = Identity(
    internalCode: Cell,
    ean: Cell,
    name: Cell,
    photo: Cell,
    archived: Cell,
    stockQuantity: Cell,
    freeQuantity: Cell)

  /** A row read back from a snapshot file: its identity, its run date key and every other column. */
  datatype SnapshotRow = SnapshotRow(identity: Identity, runDateKey: string, others: map<string, Cell>)

  /** One group of the `group_by`: a distinct identity and `min(run_date_key)` over its rows. */
  datatype Version = Version(identity: Identity, updateDateKey: string)

  /** A row of the present table. `currentFlag` is `Some("Y")` or null (`None`). */
  datatype PresentRow = PresentRow(identity: Identity, updateDateKey: string, currentFlag: Option<string>)

  /** The literal the `when(...).then(...)` writes; there is no `otherwise`, so other rows get null. */
  const CurrentMark: string := "Y"

  /** The read of every snapshot file found; none found is an error. */
  datatype PresentError = NoSnapshotFiles

  function IdentitiesOf(rows: seq<SnapshotRow>): set<Identity>
  {
    set r | r in rows :: r.identity
  }

  /** Identity `id` occurs in `rows` with run date key `key`. */
  ghost predicate Observed(rows: seq<SnapshotRow>, id: Identity, key: string)
  {
    exists r :: r in rows && r.identity == id && r.runDateKey == key
  }

  /** `key` is the earliest run date key identity `id` occurs with in `rows`. */
  ghost predicate IsEarliest(rows: seq<SnapshotRow>, id: Identity, key: string)
  {
    && Observed(rows, id, key)
    && forall r :: r in rows && r.identity == id ==> LexLe(key, r.runDateKey)
  }

  /** `versions[i]` has the largest update date key among the versions of its internal code. */
  ghost predicate IsWindowMax(versions: seq<Version>, i: int)
    requires 0 <= i < |versions|
  {
    forall j :: 0 <= j < |versions| && versions[j].identity.internalCode == versions[i].identity.internalCode ==>
      LexLe(versions[j].updateDateKey, versions[i].updateDateKey)
  }

  /** `pl.min("run_date_key")` over the rows of one group. */
  function EarliestKey(rows: seq<SnapshotRow>, id: Identity): (key: string)
    requires id in IdentitiesOf(rows)
    ensures IsEarliest(rows, id, key)
    decreases |rows|
  {
    var head, tail := rows[0], rows[1..];
    assert rows == [head] + tail;
    if head.identity != id then
      assert id in IdentitiesOf(tail);
      EarliestKey(tail, id)
    else if id !in IdentitiesOf(tail) then
      LexLeReflexive(head.runDateKey);
      head.runDateKey
    else
      var later := EarliestKey(tail, id);
      var m := Min(head.runDateKey, later);
      assert forall r :: r in tail && r.identity == id ==> LexLe(m, r.runDateKey) by {
        forall r | r in tail && r.identity == id {
          LexLeTransitive(m, later, r.runDateKey);
        }
      }
      m
  }

  /** The identity column of `rows`, one entry per row. */
  function IdentityColumn(rows: seq<SnapshotRow>): (ids: seq<Identity>)
    ensures forall id :: id in ids <==> id in IdentitiesOf(rows)
  {
    var ids := seq(|rows|, i requires 0 <= i < |rows| => rows[i].identity);
    assert forall id :: id in IdentitiesOf(rows) ==> id in ids by {
      forall id | id in IdentitiesOf(rows) ensures id in ids {
        var r :| r in rows && r.identity == id;
        var k :| 0 <= k < |rows| && rows[k] == r;
        assert ids[k] == id;
      }
    }
    ids
  }

  /** `group_by(<identity columns>).agg(pl.min("run_date_key").alias("update_date_key"))`. */
  function Aggregate(rows: seq<SnapshotRow>): (versions: seq<Version>)
    ensures forall i, j :: 0 <= i < j < |versions| ==> versions[i].identity != versions[j].identity
    ensures forall id :: id in IdentitiesOf(rows) <==> exists i :: 0 <= i < |versions| && versions[i].identity == id
    ensures forall i :: 0 <= i < |versions| ==> IsEarliest(rows, versions[i].identity, versions[i].updateDateKey)
  {
    var ids := Unique(IdentityColumn(rows));
    var versions := seq(|ids|, i requires 0 <= i < |ids| => Version(ids[i], EarliestKey(rows, ids[i])));
    assert forall id :: id in IdentitiesOf(rows) ==> exists i :: 0 <= i < |versions| && versions[i].identity == id by {
      forall id | id in IdentitiesOf(rows) ensures exists i :: 0 <= i < |versions| && versions[i].identity == id {
        var i :| 0 <= i < |ids| && ids[i] == id;
        assert versions[i].identity == id;
      }
    }
    versions
  }

  /** `pl.max("update_date_key").over("internal_code")`; `None` when no version has that code. */
  function LatestUpdate(versions: seq<Version>, code: Cell): (latest: Option<string>)
    ensures latest.None? <==> forall i :: 0 <= i < |versions| ==> versions[i].identity.internalCode != code
    ensures latest.Some? ==> exists i :: 0 <= i < |versions| && versions[i].identity.internalCode == code && versions[i].updateDateKey == latest.value
    ensures latest.Some? ==> forall i :: 0 <= i < |versions| && versions[i].identity.internalCode == code ==> LexLe(versions[i].updateDateKey, latest.value)
  {
    if |versions| == 0 then None
    else
      var head, tail := versions[0], versions[1..];
      var rest := LatestUpdate(tail, code);
      assert forall i :: 1 <= i < |versions| ==> versions[i] == tail[i - 1];
      if head.identity.internalCode != code then rest
      else if rest.None? then
        LexLeReflexive(head.updateDateKey);
        Some(head.updateDateKey)
      else
        var m := Max(head.updateDateKey, rest.value);
        assert forall i :: 0 <= i < |tail| && tail[i].identity.internalCode == code ==> LexLe(tail[i].updateDateKey, m) by {
          forall i | 0 <= i < |tail| && tail[i].identity.internalCode == code {
            LexLeTransitive(tail[i].updateDateKey, rest.value, m);
          }
        }
        Some(m)
  }

  /** `with_columns(pl.when(<window max> == pl.col("update_date_key")).then(pl.lit("Y")).alias("current_flag"))`. */
  function MarkCurrent(versions: seq<Version>): (present: seq<PresentRow>)
    ensures |present| == |versions|
    ensures forall i :: 0 <= i < |versions| ==>
      present[i].identity == versions[i].identity && present[i].updateDateKey == versions[i].updateDateKey
    ensures forall i :: 0 <= i < |versions| ==> (present[i].currentFlag == Some(CurrentMark) <==> IsWindowMax(versions, i))
    ensures forall i :: 0 <= i < |versions| ==> present[i].currentFlag in {None, Some(CurrentMark)}
  {
    var present := seq(|versions|, i requires 0 <= i < |versions| =>
      var v := versions[i];
      var flag := if LatestUpdate(versions, v.identity.internalCode) == Some(v.updateDateKey) then Some(CurrentMark) else None;
      PresentRow(v.identity, v.updateDateKey, flag));
    assert forall i :: 0 <= i < |versions| ==> (present[i].currentFlag == Some(CurrentMark) <==> IsWindowMax(versions, i)) by {
      forall i | 0 <= i < |versions|
        ensures present[i].currentFlag == Some(CurrentMark) <==> IsWindowMax(versions, i)
      {
        var v := versions[i];
        var latest := LatestUpdate(versions, v.identity.internalCode);
        if IsWindowMax(versions, i) {
          var j :| 0 <= j < |versions| && versions[j].identity.internalCode == v.identity.internalCode && versions[j].updateDateKey == latest.value;
          LexLeAntisymmetric(v.updateDateKey, latest.value);
        }
      }
    }
    present
  }

  // ---------------------------------------------------------------------
  // Reference definition of the present table
  // ---------------------------------------------------------------------

  /**
    * Stated on the input rows alone, without min or max: every identity of
    * internal code `code` was already seen on or before `key`.
    */
  ghost predicate IsLatestVersion(rows: seq<SnapshotRow>, code: Cell, key: string)
  {
    forall r :: r in rows && r.identity.internalCode == code ==> SeenBy(rows, r.identity, key)
  }

  /** Identity `id` occurs in `rows` with a run date key on or before `key`. */
  ghost predicate SeenBy(rows: seq<SnapshotRow>, id: Identity, key: string)
  {
    exists s :: s in rows && s.identity == id && LexLe(s.runDateKey, key)
  }

  /**
    * `p` belongs in the present table of `rows`: its identity occurs, its
    * update date key is the first run date that identity was seen on, and it
    * is flagged "Y" exactly when no identity of its internal code first
    * appeared later; otherwise its flag is null.
    */
  ghost predicate IsPresentRow(rows: seq<SnapshotRow>, p: PresentRow)
  {
    && p.identity in IdentitiesOf(rows)
    && IsEarliest(rows, p.identity, p.updateDateKey)
    && p.currentFlag == (if IsLatestVersion(rows, p.identity.internalCode, p.updateDateKey) then Some(CurrentMark) else None)
  }

  /** `versions` is a grouping of `rows`: one version per identity, each with its earliest key. */
  ghost predicate IsGrouping(rows: seq<SnapshotRow>, versions: seq<Version>)
  {
    && (forall i, j :: 0 <= i < j < |versions| ==> versions[i].identity != versions[j].identity)
    && (forall id :: id in IdentitiesOf(rows) <==> exists i :: 0 <= i < |versions| && versions[i].identity == id)
    && (forall i :: 0 <= i < |versions| ==> IsEarliest(rows, versions[i].identity, versions[i].updateDateKey))
  }

  /** A row on which the earliest key of `id` was seen. */
  ghost function EarliestWitness(rows: seq<SnapshotRow>, id: Identity, key: string): (r: SnapshotRow)
    requires IsEarliest(rows, id, key)
    ensures r in rows && r.identity == id && r.runDateKey == key
  {
    var r :| r in rows && r.identity == id && r.runDateKey == key; r
  }

  lemma EarliestLowerBound(rows: seq<SnapshotRow>, id: Identity, key: string, r: SnapshotRow)
    requires IsEarliest(rows, id, key)
    requires r in rows && r.identity == id
    ensures LexLe(key, r.runDateKey)
  {
  }

  /** The window maximum of a grouping is a latest version. */
  lemma WindowMaxIsLatest(rows: seq<SnapshotRow>, versions: seq<Version>, i: int)
    requires IsGrouping(rows, versions) && 0 <= i < |versions|
    requires IsWindowMax(versions, i)
    ensures IsLatestVersion(rows, versions[i].identity.internalCode, versions[i].updateDateKey)
  {
    var v := versions[i];
    forall r | r in rows && r.identity.internalCode == v.identity.internalCode
      ensures SeenBy(rows, r.identity, v.updateDateKey)
    {
      assert r.identity in IdentitiesOf(rows);
      var j :| 0 <= j < |versions| && versions[j].identity == r.identity;
      assert Observed(rows, versions[j].identity, versions[j].updateDateKey);
      var s :| s in rows && s.identity == versions[j].identity && s.runDateKey == versions[j].updateDateKey;
      assert LexLe(s.runDateKey, v.updateDateKey);
    }
  }

  /** Every identity of an internal code first appeared no later than a latest version's key. */
  lemma LatestBoundsEarliest(rows: seq<SnapshotRow>, id: Identity, first: string, key: string)
    requires IsLatestVersion(rows, id.internalCode, key)
    requires IsEarliest(rows, id, first)
    ensures LexLe(first, key)
  {
    var seen := EarliestWitness(rows, id, first);
    assert SeenBy(rows, seen.identity, key);
    var s :| s in rows && s.identity == seen.identity && LexLe(s.runDateKey, key);
    EarliestLowerBound(rows, id, first, s);
    LexLeTransitive(first, s.runDateKey, key);
  }

  /** A latest version is the window maximum of a grouping. */
  lemma LatestIsWindowMax(rows: seq<SnapshotRow>, versions: seq<Version>, i: int)
    requires IsGrouping(rows, versions) && 0 <= i < |versions|
    requires IsLatestVersion(rows, versions[i].identity.internalCode, versions[i].updateDateKey)
    ensures IsWindowMax(versions, i)
  {
    var v := versions[i];
    forall j | 0 <= j < |versions| && versions[j].identity.internalCode == v.identity.internalCode
      ensures LexLe(versions[j].updateDateKey, v.updateDateKey)
    {
      LatestBoundsEarliest(rows, versions[j].identity, versions[j].updateDateKey, v.updateDateKey);
    }
  }

  /** Two keys that are both the earliest for one identity are the same key. */
  lemma EarliestUnique(rows: seq<SnapshotRow>, id: Identity, k1: string, k2: string)
    requires IsEarliest(rows, id, k1) && IsEarliest(rows, id, k2)
    ensures k1 == k2
  {
    var r1 :| r1 in rows && r1.identity == id && r1.runDateKey == k1;
    var r2 :| r2 in rows && r2.identity == id && r2.runDateKey == k2;
    LexLeAntisymmetric(k1, k2);
  }

  /** Flagging a grouping yields exactly the rows the reference definition admits. */
  lemma MarkCurrentCharacterization(rows: seq<SnapshotRow>, versions: seq<Version>, p: PresentRow)
    requires IsGrouping(rows, versions)
    ensures p in MarkCurrent(versions) <==> IsPresentRow(rows, p)
  {
    var present := MarkCurrent(versions);
    if p in present {
      var i :| 0 <= i < |present| && present[i] == p;
      if IsWindowMax(versions, i) {
        WindowMaxIsLatest(rows, versions, i);
      } else if IsLatestVersion(rows, versions[i].identity.internalCode, versions[i].updateDateKey) {
        LatestIsWindowMax(rows, versions, i);
      }
    }
    if IsPresentRow(rows, p) {
      var i :| 0 <= i < |versions| && versions[i].identity == p.identity;
      EarliestUnique(rows, p.identity, p.updateDateKey, versions[i].updateDateKey);
      if IsWindowMax(versions, i) {
        WindowMaxIsLatest(rows, versions, i);
      } else if IsLatestVersion(rows, versions[i].identity.internalCode, versions[i].updateDateKey) {
        LatestIsWindowMax(rows, versions, i);
      }
      assert present[i] == p;
    }
  }

  /** Rows with the same members have the same reference present table. */
  lemma SameMembersSamePresent(a: seq<SnapshotRow>, b: seq<SnapshotRow>, p: PresentRow)
    requires forall r :: r in a <==> r in b
    ensures IsPresentRow(a, p) <==> IsPresentRow(b, p)
  {
    assert IdentitiesOf(a) == IdentitiesOf(b);
  }

  // ---------------------------------------------------------------------
  // present_fhb
  // ---------------------------------------------------------------------

  /**
    * `present_fhb` on the rows of every snapshot file, read as one frame:
    * `unique()`, then the group-by, then the current flag.
    */
  function PresentFhb(rows: seq<SnapshotRow>): (present: seq<PresentRow>)
    ensures forall i, j :: 0 <= i < j < |present| ==> present[i].identity != present[j].identity
    ensures forall p :: p in present <==> IsPresentRow(rows, p)
  {
    var deduped := Unique(rows);
    var present := MarkCurrent(Aggregate(deduped));
    assert IsGrouping(deduped, Aggregate(deduped));
    assert forall p :: p in present <==> IsPresentRow(rows, p) by {
      forall p
        ensures p in present <==> IsPresentRow(rows, p)
      {
        MarkCurrentCharacterization(deduped, Aggregate(deduped), p);
        SameMembersSamePresent(deduped, rows, p);
      }
    }
    present
  }

  /** The whole stage: every snapshot file read as one frame; no file at all is an error. */
  function PresentFromPartitions(partitions: seq<seq<SnapshotRow>>): (r: Result<seq<PresentRow>, PresentError>)
    ensures r.Failure? <==> |partitions| == 0
    ensures r.Success? ==> forall p :: p in r.value <==> IsPresentRow(Flatten(partitions), p)
  {
    if |partitions| == 0 then Failure(NoSnapshotFiles) else Success(PresentFhb(Flatten(partitions)))
  }
}
