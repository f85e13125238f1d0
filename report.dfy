/**
 * The rows of the recalibration table: for every header read group, one row
 * per bucket of its table that has counted at least one base.
 */
module Report {
  import opened Covariates
  import opened Platforms

  /** One row of the table: read group, covariate key, counters. */
  datatype Row = Row(rg: string, key: Key, datum: RecalDatum)

  /** The rows of table `t` of group `g`: the `N > 0` filter over its buckets. */
  function GroupRows(g: string, t: Table): (rows: set<Row>)
    ensures forall row :: row in rows <==> row.rg == g && row.key in t && row.datum == t[row.key] && row.datum.n > 0
  {
    set k | k in t && t[k].n > 0 :: Row(g, k, t[k])
  }

  /** Removing one bucket from a table removes exactly its row. */
  lemma GroupRowsRemove(g: string, t: Table, k: Key)
    requires k in t && t[k].n > 0
    ensures GroupRows(g, t) == GroupRows(g, t - {k}) + {Row(g, k, t[k])}
    ensures Row(g, k, t[k]) !in GroupRows(g, t - {k})
  {
    var rest := t - {k};
    forall row | row in GroupRows(g, t) ensures row in GroupRows(g, rest) + {Row(g, k, t[k])} {
      if row.key != k {
        assert row.key in rest;
      }
    }
  }

  /** In a valid table the filter drops nothing: one row per bucket. */
  lemma {:induction false} ValidTableRowCount(g: string, t: Table)
    requires TableValid(t)
    ensures |GroupRows(g, t)| == |t|
    decreases |t|
  {
    if t != map[] {
      var k :| k in t;
      var rest := t - {k};
      assert TableValid(rest) by {
        forall k' | k' in rest ensures BucketValid(k', rest[k']) {
          assert BucketValid(k', t[k']);
        }
      }
      ValidTableRowCount(g, rest);
      assert BucketValid(k, t[k]);
      GroupRowsRemove(g, t, k);
      assert t.Keys == rest.Keys + {k};
    }
  }

  /** Every header read group has a table. */
  ghost predicate ReportDefined(header: seq<ReadGroupRecord>, data: Registry)
  {
    forall i :: 0 <= i < |header| ==> header[i].id in data
  }

  /**
   * `writeRecalTable` as written: it asks the registry for the table of every
   * header read group; a group without one fails the whole report (`None`).
   */
  function RecalTableAsWritten(header: seq<ReadGroupRecord>, data: Registry): (r: Option<seq<set<Row>>>)
    ensures r.Some? <==> ReportDefined(header, data)
    ensures r.Some? ==> |r.value| == |header|
    ensures r.Some? ==> forall i :: 0 <= i < |header| ==> header[i].id in data && r.value[i] == GroupRows(header[i].id, data[header[i].id])
  {
    if header == [] then Some([])
    else if header[0].id !in data then None
    else
      match RecalTableAsWritten(header[1..], data)
      case None =>
        assert !ReportDefined(header[1..], data);
        None
      case Some(rest) => Some([GroupRows(header[0].id, data[header[0].id])] + rest)
  }

  /** `writeRecalTable` corrected: header read groups that were never registered contribute no rows. */
  function RecalTable(header: seq<ReadGroupRecord>, data: Registry): (r: seq<set<Row>>)
    ensures |r| == |header|
  {
    seq(|header|, i requires 0 <= i < |header| =>
      if header[i].id in data then GroupRows(header[i].id, data[header[i].id]) else {})
  }

  /** Whenever the report as written succeeds, the corrected report writes the same rows. */
  lemma CorrectedAgreesWhenDefined(header: seq<ReadGroupRecord>, data: Registry)
    requires ReportDefined(header, data)
    ensures RecalTableAsWritten(header, data) == Some(RecalTable(header, data))
  {
    var r := RecalTableAsWritten(header, data);
    assert r.value == RecalTable(header, data);
  }

  /**
   * After the registry is built from the header, the report as written
   * succeeds exactly when the allow-list supports every header read group.
   */
  lemma AsWrittenDefinedIffAllSupported(header: seq<ReadGroupRecord>, platforms: seq<string>, data: Registry)
    requires data.Keys == RegisteredIds(header, platforms)
    requires forall i, j :: 0 <= i < |header| && 0 <= j < |header| && header[i].id == header[j].id ==> i == j
    ensures RecalTableAsWritten(header, data).Some? <==> forall i :: 0 <= i < |header| ==> Supported(header[i], platforms)
  {
    if RecalTableAsWritten(header, data).Some? {
      forall i | 0 <= i < |header| ensures Supported(header[i], platforms) {
        assert header[i].id in RegisteredIds(header, platforms);
        var j :| 0 <= j < |header| && Supported(header[j], platforms) && header[j].id == header[i].id;
      }
    } else {
      var i :| 0 <= i < |header| && header[i].id !in data;
      assert header[i].id !in RegisteredIds(header, platforms);
    }
  }

  /** The allow-list `ILLUMINA` does not support a SOLID read group: the PL differs even in length. */
  lemma SolidNotOnIlluminaList(group: ReadGroupRecord)
    requires group.platform == Some("SOLID")
    ensures !Supported(group, ["ILLUMINA"])
  {
    var entry := "ILLUMINA";
    assert TrimStart(entry) == entry;
    assert TrimEnd(entry) == entry;
    assert |Trim(entry)| == 8;
    assert !EqualsIgnoreCase("SOLID", Trim(entry));
    assert !PlatformMatches(group, entry);
    assert ["ILLUMINA"][0] == entry;
  }

  /**
   * The input that shows it: a header with an ILLUMINA group and a SOLID
   * group, and the allow-list `ILLUMINA`. The SOLID group is never
   * registered, so the report as written fails on it.
   */
  lemma AsWrittenFailsOnFilteredGroup(data: Registry)
    requires data.Keys == RegisteredIds(
      [ReadGroupRecord("RG1", Some("ILLUMINA")), ReadGroupRecord("RG2", Some("SOLID"))], ["ILLUMINA"])
    ensures RecalTableAsWritten(
      [ReadGroupRecord("RG1", Some("ILLUMINA")), ReadGroupRecord("RG2", Some("SOLID"))], data) == None
  {
    var header := [ReadGroupRecord("RG1", Some("ILLUMINA")), ReadGroupRecord("RG2", Some("SOLID"))];
    SolidNotOnIlluminaList(header[1]);
    assert header[0].id[2] == '1' != header[1].id[2];
    assert forall i :: 0 <= i < |header| && header[i].id == "RG2" ==> i == 1;
    assert header[1].id !in RegisteredIds(header, ["ILLUMINA"]);
    assert !ReportDefined(header, data);
  }

  /**
   * The corrected report writes every bucket the walker holds: each counted
   * bucket of a registered header group appears as a row of that group.
   */
  lemma RecalTableWritesEveryBucket(header: seq<ReadGroupRecord>, data: Registry, i: int, k: Key)
    requires TablesValid(data)
    requires 0 <= i < |header| && header[i].id in data && k in data[header[i].id]
    ensures Row(header[i].id, k, data[header[i].id][k]) in RecalTable(header, data)[i]
  {
    assert TableValid(data[header[i].id]);
    assert BucketValid(k, data[header[i].id][k]);
  }
}
