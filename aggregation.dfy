/**
 * The per-locus aggregation of the walker as values: which reads and bases
 * are counted, which reads abort the locus, and what processing a list of
 * reads does to the registry and to the counted-bases counter. The walker's
 * `Map` method is proved to produce exactly these values.
 */
module Aggregation {
  import opened Covariates
  import opened Platforms

  /** The walker's command-line arguments. */
  datatype Config = Config(
    buggyMaxReadLen: int,
    minMappingQuality: int,
    readGroup: string,
    platforms: seq<string>,
    collapsePos: bool,
    collapseDinuc: bool)

  /** The argument defaults: maximum read length 100000, mapping quality 1, no read-group filter, every platform. */
  const DEFAULT_CONFIG := Config(100000, 1, "none", ["*"], false, false)

  /** A read passes the read filters: supported platform, the selected read group (or `none`), enough mapping quality. */
  predicate Eligible(cfg: Config, read: Read)
  {
    && Supported(read.group, cfg.platforms)
    && (cfg.readGroup == "none" || read.group.id == cfg.readGroup)
    && read.mappingQuality >= cfg.minMappingQuality
  }

  /** The base at `offset` is neither the first nor the last base of the read. */
  predicate Interior(read: Read, offset: int)
  {
    0 < offset < |read.bases| - 1
  }

  /** The read is longer than the configured ceiling, which aborts the locus before the read is looked at. */
  predicate TooLong(cfg: Config, read: Read)
  {
    |read.bases| > cfg.buggyMaxReadLen
  }

  /** The read reaches the quality lookup, but its quality array has no entry at `offset`: the lookup aborts the locus. */
  predicate LacksQual(cfg: Config, read: Read, offset: int)
  {
    Eligible(cfg, read) && Interior(read, offset) && offset >= |read.quals|
  }

  /** Either way the read aborts the locus. */
  predicate Aborts(cfg: Config, read: Read, offset: int)
  {
    TooLong(cfg, read) || LacksQual(cfg, read, offset)
  }

  /** The read has one base counted: it passes the filters, its offset is interior, and its quality there is positive. */
  predicate Contributes(cfg: Config, read: Read, offset: int)
  {
    Eligible(cfg, read) && Observable(read, offset) && read.quals[offset] > 0
  }

  /**
   * What the loop body needs of a read that does not abort: when it is
   * counted, its read group has a table (which `initialize` ensures for
   * every supported header read group).
   */
  predicate Admissible(cfg: Config, data: Registry, read: Read, offset: int)
  {
    !LacksQual(cfg, read, offset) && (Contributes(cfg, read, offset) ==> read.group.id in data)
  }

  /** Parallel lists of reads and offsets, every pair admissible. */
  predicate AllAdmissible(cfg: Config, data: Registry, locusReads: seq<Read>, offsets: seq<int>)
  {
    |locusReads| == |offsets| && forall i :: 0 <= i < |locusReads| ==> Admissible(cfg, data, locusReads[i], offsets[i])
  }

  /** The registry together with the counted-bases counter. */
  datatype Tally = Tally(data: Registry, countedBases: int)

  /**
   * `updateDataFromRead` as a value: a base with positive quality is counted
   * once, in the bucket of its observation in table `rg`; any other base
   * leaves the tally as it was.
   */
  function UpdateData(t: Tally, rg: string, read: Read, offset: int, ref: char, complement: char -> char): (r: Tally)
    requires Observable(read, offset) && (read.quals[offset] > 0 ==> rg in t.data)
    ensures r.data.Keys == t.data.Keys
    ensures forall g :: g in t.data && g != rg ==> r.data[g] == t.data[g]
    ensures r.countedBases == t.countedBases + (if read.quals[offset] > 0 then 1 else 0)
  {
    var ob := Observe(read, offset, ref, complement);
    if ob.qual > 0 then
      Tally(t.data[rg := Bump(t.data[rg], ob.CovariateKey(), ob.base, ob.ref)], t.countedBases + 1)
    else
      t
  }

  /**
   * A base of positive quality changes exactly one bucket of table `rg`, the
   * one keyed by its (cycle, quality, dinucleotide), creating it when missing:
   * one more base, and one more mismatch when the base differs from the
   * reference. Any other base changes no table.
   */
  lemma UpdateDataBucket(t: Tally, rg: string, read: Read, offset: int, ref: char, complement: char -> char)
    requires Observable(read, offset) && (read.quals[offset] > 0 ==> rg in t.data)
    ensures var r := UpdateData(t, rg, read, offset, ref, complement);
      var ob := Observe(read, offset, ref, complement);
      var k := ob.CovariateKey();
      if read.quals[offset] > 0 then
        var prior := if k in t.data[rg] then t.data[rg][k] else EMPTY_DATUM;
        && r.data[rg].Keys == t.data[rg].Keys + {k}
        && (forall k' :: k' in t.data[rg] && k' != k ==> r.data[rg][k'] == t.data[rg][k'])
        && r.data[rg][k] == RecalDatum(prior.n + 1, if ob.Mismatch() then prior.b + 1 else prior.b)
      else
        r.data == t.data
  {
  }

  /** One iteration of `map`'s loop over the reads, for a read that does not abort the locus. */
  function ProcessRead(cfg: Config, complement: char -> char, t: Tally, read: Read, offset: int, ref: char): (r: Tally)
    requires Admissible(cfg, t.data, read, offset)
    ensures r.data.Keys == t.data.Keys
  {
    if Eligible(cfg, read) && Interior(read, offset) then
      UpdateData(t, read.group.id, read, offset, ref, complement)
    else
      t
  }

  /** `map`'s loop over parallel lists of reads and offsets, none of which aborts the locus. */
  function ProcessReads(cfg: Config, complement: char -> char, t: Tally, locusReads: seq<Read>, offsets: seq<int>, ref: char): (r: Tally)
    requires AllAdmissible(cfg, t.data, locusReads, offsets)
    ensures r.data.Keys == t.data.Keys
  {
    if locusReads == [] then t
    else
      var n := |locusReads| - 1;
      assert AllAdmissible(cfg, t.data, locusReads[..n], offsets[..n]) by {
        forall i | 0 <= i < n ensures Admissible(cfg, t.data, locusReads[..n][i], offsets[..n][i]) {
          assert Admissible(cfg, t.data, locusReads[i], offsets[i]);
        }
      }
      var before := ProcessReads(cfg, complement, t, locusReads[..n], offsets[..n], ref);
      assert Admissible(cfg, t.data, locusReads[n], offsets[n]);
      ProcessRead(cfg, complement, before, locusReads[n], offsets[n], ref)
  }

  /** Index of the first read that aborts the locus, or the number of reads when none does. */
  function FirstAbort(cfg: Config, locusReads: seq<Read>, offsets: seq<int>): (k: nat)
    requires |locusReads| == |offsets|
    ensures k <= |locusReads|
    ensures forall i :: 0 <= i < k ==> !Aborts(cfg, locusReads[i], offsets[i])
    ensures k < |locusReads| ==> Aborts(cfg, locusReads[k], offsets[k])
  {
    if locusReads == [] then 0
    else if Aborts(cfg, locusReads[0], offsets[0]) then 0
    else 1 + FirstAbort(cfg, locusReads[1..], offsets[1..])
  }

  /**
   * The reads before the first aborting one are admissible: when none of the
   * first `i` reads aborts and read `i` does not either, the first `i + 1`
   * reads are admissible.
   */
  lemma AdmissibleBeforeAbort(cfg: Config, data: Registry, locusReads: seq<Read>, offsets: seq<int>, i: nat)
    requires |locusReads| == |offsets| && i < |locusReads|
    requires AllAdmissible(cfg, data, locusReads[..FirstAbort(cfg, locusReads, offsets)], offsets[..FirstAbort(cfg, locusReads, offsets)])
    requires forall j :: 0 <= j < i ==> !Aborts(cfg, locusReads[j], offsets[j])
    ensures !Aborts(cfg, locusReads[i], offsets[i]) ==> AllAdmissible(cfg, data, locusReads[..i + 1], offsets[..i + 1])
  {
    var k := FirstAbort(cfg, locusReads, offsets);
    if !Aborts(cfg, locusReads[i], offsets[i]) {
      var reads', offsets' := locusReads[..i + 1], offsets[..i + 1];
      forall j | 0 <= j < |reads'| ensures Admissible(cfg, data, reads'[j], offsets'[j]) {
        assert Admissible(cfg, data, locusReads[..k][j], offsets[..k][j]);
      }
    }
  }

  /** Processing the first `i + 1` reads is processing the first `i`, then read `i`. */
  lemma ProcessReadsStep(cfg: Config, complement: char -> char, t: Tally, locusReads: seq<Read>, offsets: seq<int>, ref: char, i: nat)
    requires |locusReads| == |offsets| && i < |locusReads|
    requires AllAdmissible(cfg, t.data, locusReads[..i + 1], offsets[..i + 1])
    ensures AllAdmissible(cfg, t.data, locusReads[..i], offsets[..i]) && Admissible(cfg, t.data, locusReads[i], offsets[i])
    ensures ProcessReads(cfg, complement, t, locusReads[..i + 1], offsets[..i + 1], ref)
         == ProcessRead(cfg, complement, ProcessReads(cfg, complement, t, locusReads[..i], offsets[..i], ref), locusReads[i], offsets[i], ref)
  {
    assert locusReads[..i + 1][..i] == locusReads[..i];
    assert offsets[..i + 1][..i] == offsets[..i];
    assert locusReads[..i + 1][i] == locusReads[i];
    assert offsets[..i + 1][i] == offsets[i];
  }

  /** Reads shorter than three bases have no interior base and never change the tally. */
  lemma ShortReadChangesNothing(cfg: Config, complement: char -> char, t: Tally, read: Read, offset: int, ref: char)
    requires |read.bases| < 3
    ensures Admissible(cfg, t.data, read, offset)
    ensures ProcessRead(cfg, complement, t, read, offset, ref) == t
  {
  }

  /** A read the filters reject needs no qualities at all: it never aborts on them and changes nothing. */
  lemma FilteredReadNeedsNoQualities(cfg: Config, complement: char -> char, t: Tally, read: Read, offset: int, ref: char)
    requires !Eligible(cfg, read)
    ensures Admissible(cfg, t.data, read, offset)
    ensures ProcessRead(cfg, complement, t, read, offset, ref) == t
  {
  }

  /** One read adds one counted base exactly when it contributes, and nothing otherwise. */
  lemma ProcessReadCount(cfg: Config, complement: char -> char, t: Tally, read: Read, offset: int, ref: char)
    requires Admissible(cfg, t.data, read, offset)
    ensures var r := ProcessRead(cfg, complement, t, read, offset, ref);
      r.countedBases == t.countedBases + (if Contributes(cfg, read, offset) then 1 else 0)
    ensures !Contributes(cfg, read, offset) ==> ProcessRead(cfg, complement, t, read, offset, ref) == t
  {
  }

  /** Processing the reads at a locus counts at most one base per read. */
  lemma {:induction false} CountedBasesBound(cfg: Config, complement: char -> char, t: Tally, locusReads: seq<Read>, offsets: seq<int>, ref: char)
    requires AllAdmissible(cfg, t.data, locusReads, offsets)
    ensures t.countedBases <= ProcessReads(cfg, complement, t, locusReads, offsets, ref).countedBases <= t.countedBases + |locusReads|
  {
    if locusReads != [] {
      var n := |locusReads| - 1;
      assert locusReads[..n + 1] == locusReads && offsets[..n + 1] == offsets;
      ProcessReadsStep(cfg, complement, t, locusReads, offsets, ref, n);
      CountedBasesBound(cfg, complement, t, locusReads[..n], offsets[..n], ref);
      var before := ProcessReads(cfg, complement, t, locusReads[..n], offsets[..n], ref);
      ProcessReadCount(cfg, complement, before, locusReads[n], offsets[n], ref);
    }
  }

  /** When no read contributes, processing the locus changes neither the registry nor the counter. */
  lemma {:induction false} NoContributorChangesNothing(cfg: Config, complement: char -> char, t: Tally, locusReads: seq<Read>, offsets: seq<int>, ref: char)
    requires AllAdmissible(cfg, t.data, locusReads, offsets)
    requires forall i :: 0 <= i < |locusReads| ==> !Contributes(cfg, locusReads[i], offsets[i])
    ensures ProcessReads(cfg, complement, t, locusReads, offsets, ref) == t
  {
    if locusReads != [] {
      var n := |locusReads| - 1;
      assert locusReads[..n + 1] == locusReads && offsets[..n + 1] == offsets;
      ProcessReadsStep(cfg, complement, t, locusReads, offsets, ref, n);
      NoContributorChangesNothing(cfg, complement, t, locusReads[..n], offsets[..n], ref);
      ProcessReadCount(cfg, complement, t, locusReads[n], offsets[n], ref);
    }
  }

  /** A read group's table changes only through reads counted in it: tables of other groups stay as they were. */
  lemma {:induction false} OtherGroupsUntouched(cfg: Config, complement: char -> char, t: Tally, locusReads: seq<Read>, offsets: seq<int>, ref: char, g: string)
    requires AllAdmissible(cfg, t.data, locusReads, offsets)
    requires g in t.data
    requires forall i :: 0 <= i < |locusReads| && Contributes(cfg, locusReads[i], offsets[i]) ==> locusReads[i].group.id != g
    ensures ProcessReads(cfg, complement, t, locusReads, offsets, ref).data[g] == t.data[g]
  {
    if locusReads != [] {
      var n := |locusReads| - 1;
      assert locusReads[..n + 1] == locusReads && offsets[..n + 1] == offsets;
      ProcessReadsStep(cfg, complement, t, locusReads, offsets, ref, n);
      OtherGroupsUntouched(cfg, complement, t, locusReads[..n], offsets[..n], ref, g);
    }
  }

  /** No key is ever removed and no bucket ever loses a count. */
  lemma {:induction false} BucketsOnlyGrow(cfg: Config, complement: char -> char, t: Tally, locusReads: seq<Read>, offsets: seq<int>, ref: char)
    requires AllAdmissible(cfg, t.data, locusReads, offsets)
    ensures var r := ProcessReads(cfg, complement, t, locusReads, offsets, ref);
      forall g, k :: g in t.data && k in t.data[g] ==>
        k in r.data[g] && r.data[g][k].n >= t.data[g][k].n && r.data[g][k].b >= t.data[g][k].b
  {
    if locusReads != [] {
      var n := |locusReads| - 1;
      assert locusReads[..n + 1] == locusReads && offsets[..n + 1] == offsets;
      ProcessReadsStep(cfg, complement, t, locusReads, offsets, ref, n);
      BucketsOnlyGrow(cfg, complement, t, locusReads[..n], offsets[..n], ref);
    }
  }

  /** Every bucket stays valid: at least one base, no more mismatches than bases, a well-formed key. */
  lemma {:induction false} ProcessReadsKeepsValid(cfg: Config, complement: char -> char, t: Tally, locusReads: seq<Read>, offsets: seq<int>, ref: char)
    requires AllAdmissible(cfg, t.data, locusReads, offsets)
    requires TablesValid(t.data)
    ensures TablesValid(ProcessReads(cfg, complement, t, locusReads, offsets, ref).data)
  {
    if locusReads != [] {
      var n := |locusReads| - 1;
      assert locusReads[..n + 1] == locusReads && offsets[..n + 1] == offsets;
      ProcessReadsStep(cfg, complement, t, locusReads, offsets, ref, n);
      ProcessReadsKeepsValid(cfg, complement, t, locusReads[..n], offsets[..n], ref);
      var before := ProcessReads(cfg, complement, t, locusReads[..n], offsets[..n], ref);
      var read, offset := locusReads[n], offsets[n];
      if Contributes(cfg, read, offset) {
        var g := read.group.id;
        var ob := Observe(read, offset, ref, complement);
        BumpKeepsValid(before.data[g], ob.CovariateKey(), ob.base, ob.ref);
      }
    }
  }
}
