/**
 * The covariate-counting walker: a registry of per-read-group tables and
 * three running counters, updated in place locus by locus.
 */
module Walker {
  import opened Covariates
  import opened Platforms
  import opened Aggregation

  /**
   * Why `map` abandons a locus: read `index` is longer than the ceiling, or
   * its quality array has no entry at its offset.
   */
  datatype MapError = ReadTooLong(index: nat) | QualityMissing(index: nat)

  datatype Result<T, E> = Ok(value: T) | Err(error: E)

  /**
   * Writing the incremented bucket back into the table that get-or-create
   * returned is `UpdateData`, and keeps every bucket valid.
   */
  lemma WriteBack(t: Tally, rg: string, read: Read, offset: int, ref: char, complement: char -> char)
    requires TablesValid(t.data) && rg in t.data && Observable(read, offset)
    requires read.quals[offset] > 0
    ensures var ob := Observe(read, offset, ref, complement);
      var k := ob.CovariateKey();
      var looked := t.data[rg := GetOrCreate(t.data[rg], k)];
      var after := looked[rg := looked[rg][k := looked[rg][k].Inc(ob.base, ob.ref)]];
      && after == UpdateData(t, rg, read, offset, ref, complement).data
      && TablesValid(after)
  {
    var ob := Observe(read, offset, ref, complement);
    var k := ob.CovariateKey();
    var looked: Registry := t.data[rg := GetOrCreate(t.data[rg], k)];
    var bumped := Bump(t.data[rg], k, ob.base, ob.ref);
    assert looked[rg][k := looked[rg][k].Inc(ob.base, ob.ref)] == bumped;
    BumpKeepsValid(t.data[rg], k, ob.base, ob.ref);
    var after := t.data[rg := bumped];
    forall g | g in after ensures TableValid(after[g]) {
      if g != rg {
        assert TableValid(t.data[g]);
      }
    }
  }

  class CovariateCounterWalker {
    const cfg: Config
    /** The base complement used for reverse-strand reads. */
    const complement: char -> char

    var data: Registry
    var countedSites: nat
    var countedBases: nat
    var skippedSites: nat

    /** Every bucket has seen at least one base, no more mismatches than bases, under a well-formed key. */
    ghost predicate Valid()
      reads this
    {
      TablesValid(data)
    }

    constructor (cfg: Config, complement: char -> char)
      ensures Valid()
      ensures this.cfg == cfg && this.complement == complement
      ensures data == map[] && countedSites == 0 && countedBases == 0 && skippedSites == 0
    {
      this.cfg := cfg;
      this.complement := complement;
      data := map[];
      countedSites, countedBases, skippedSites := 0, 0, 0;
    }

    /** The registry-building loop of `initialize`: one empty table per supported header read group. */
    method Initialize(header: seq<ReadGroupRecord>)
      requires Valid() && data == map[]
      modifies this`data
      ensures Valid()
      ensures data.Keys == RegisteredIds(header, cfg.platforms)
      ensures forall g :: g in data ==> data[g] == map[]
    {
      for i := 0 to |header|
        invariant data.Keys == RegisteredIds(header[..i], cfg.platforms)
        invariant forall g :: g in data ==> data[g] == map[]
      {
        assert header[..i + 1] == header[..i] + [header[i]];
        RegisteredIdsSnoc(header[..i], header[i], cfg.platforms);
        var readGroup := header[i];
        var supported := IsSupportedReadGroup(readGroup, cfg.platforms);
        if !supported {
          continue;
        }
        data := data[readGroup.id := map[]];
      }
      assert header[..|header|] == header;
    }

    /**
     * Get-or-create: the bucket of `(pos, qual, prevBase base)` in table `rg`.
     * An existing bucket is returned as it is; a missing one is created empty
     * and inserted, so a second lookup finds it. No key is removed.
     * A created bucket has N = 0, which `Valid()` does not allow: only
     * `UpdateDataFromRead` calls this, and it counts a base in that bucket
     * straight away, which restores `Valid()`.
     */
    method GetRecalData(rg: string, pos: int, qual: int, prevBase: char, base: char) returns (datum: RecalDatum)
      requires rg in data
      modifies this`data
      ensures var k := RecalKey(pos, qual, prevBase, base);
        data == old(data)[rg := GetOrCreate(old(data)[rg], k)] && datum == data[rg][k]
    {
      var k := RecalKey(pos, qual, prevBase, base);
      if k !in data[rg] {
        data := data[rg := data[rg][k := EMPTY_DATUM]];
      }
      datum := data[rg][k];
    }

    /**
     * `updateDataFromRead`: count the base at `offset` of `read` under its
     * machine cycle, quality and dinucleotide in table `rg`, when its quality
     * is positive; returns the number of bases counted (1 or 0). `None` is the
     * failed quality lookup of a read whose quality array has no entry at
     * `offset`; nothing has changed then.
     */
    method UpdateDataFromRead(rg: string, read: Read, offset: int, ref: char) returns (counted: Option<int>)
      requires Valid() && Interior(read, offset)
      requires offset < |read.quals| && read.quals[offset] > 0 ==> rg in data
      modifies this`data
      ensures Valid()
      ensures counted.None? <==> offset >= |read.quals|
      ensures counted.None? ==> data == old(data)
      ensures counted.Some? ==>
        && counted.value == (if read.quals[offset] > 0 then 1 else 0)
        && data == UpdateData(Tally(old(data), countedBases), rg, read, offset, ref, complement).data
    {
      if offset >= |read.quals| {
        return None;
      }
      var ob := Observe(read, offset, ref, complement);
      if ob.qual > 0 {
        WriteBack(Tally(data, countedBases), rg, read, offset, ref, complement);
        var datum := GetRecalData(rg, ob.cycle, ob.qual, ob.prevBase, ob.base);
        // The bucket is shared by reference in the walker; its increment is written back under its key.
        var k := ob.CovariateKey();
        data := data[rg := data[rg][k := datum.Inc(ob.base, ob.ref)]];
        counted := Some(1);
      } else {
        counted := Some(0);
      }
    }

    /**
     * One pass of `map`'s loop body, for a read within the length ceiling:
     * the read filters, then the interior-offset test, then the count.
     * `false` when the quality lookup fails, with nothing changed.
     */
    method CountRead(read: Read, offset: int, ref: char) returns (ok: bool)
      requires Valid() && (Contributes(cfg, read, offset) ==> read.group.id in data)
      modifies this`data, this`countedBases
      ensures Valid()
      ensures ok <==> !LacksQual(cfg, read, offset)
      ensures !ok ==> data == old(data) && countedBases == old(countedBases)
      ensures ok ==> Tally(data, countedBases) == ProcessRead(cfg, complement, Tally(old(data), old(countedBases)), read, offset, ref)
    {
      var supported := IsSupportedReadGroup(read.group, cfg.platforms);
      if supported && (cfg.readGroup == "none" || read.group.id == cfg.readGroup)
         && read.mappingQuality >= cfg.minMappingQuality
      {
        var numBases := |read.bases|;
        if offset > 0 && offset < numBases - 1 {
          var counted := UpdateDataFromRead(read.group.id, read, offset, ref);
          if counted.None? {
            return false;
          }
          countedBases := countedBases + counted.value;
        }
      }
      return true;
    }

    /**
     * `map` at one locus. At a known SNP site only `skippedSites` moves. Elsewhere
     * every read is checked against the length ceiling (a longer read aborts,
     * keeping what earlier reads counted) and the read filters, its interior
     * base is counted, and `countedSites` moves once the loop completes.
     */
    method Map(isSnp: bool, ref: char, locusReads: seq<Read>, offsets: seq<int>) returns (r: Result<int, MapError>)
      requires Valid()
      requires |locusReads| == |offsets|
      requires !isSnp ==>
        var k := FirstAbort(cfg, locusReads, offsets);
        AllAdmissible(cfg, data, locusReads[..k], offsets[..k])
      modifies this
      ensures Valid()
      ensures isSnp ==>
        && r == Ok(1) && data == old(data) && countedBases == old(countedBases)
        && countedSites == old(countedSites) && skippedSites == old(skippedSites) + 1
      ensures !isSnp ==>
        var k := FirstAbort(cfg, locusReads, offsets);
        var t := ProcessReads(cfg, complement, Tally(old(data), old(countedBases)), locusReads[..k], offsets[..k], ref);
        && data == t.data && countedBases == t.countedBases && skippedSites == old(skippedSites)
        && (if k < |locusReads|
            then r == Err(if TooLong(cfg, locusReads[k]) then ReadTooLong(k) else QualityMissing(k))
                 && countedSites == old(countedSites)
            else r == Ok(1) && countedSites == old(countedSites) + 1)
    {
      if isSnp {
        skippedSites := skippedSites + 1;
        return Ok(1);
      }
      ghost var start := Tally(data, countedBases);
      for i := 0 to |locusReads|
        invariant Valid()
        invariant forall j :: 0 <= j < i ==> !Aborts(cfg, locusReads[j], offsets[j])
        invariant data.Keys == start.data.Keys
        invariant AllAdmissible(cfg, start.data, locusReads[..i], offsets[..i])
        invariant Tally(data, countedBases) == ProcessReads(cfg, complement, start, locusReads[..i], offsets[..i], ref)
        invariant countedSites == old(countedSites) && skippedSites == old(skippedSites)
      {
        var read := locusReads[i];
        if |read.bases| > cfg.buggyMaxReadLen {
          return Err(ReadTooLong(i));
        }
        AdmissibleBeforeAbort(cfg, start.data, locusReads, offsets, i);
        var ok := CountRead(read, offsets[i], ref);
        if !ok {
          return Err(QualityMissing(i));
        }
        ProcessReadsStep(cfg, complement, start, locusReads, offsets, ref, i);
      }
      assert locusReads[..|locusReads|] == locusReads;
      assert offsets[..|offsets|] == offsets;
      countedSites := countedSites + 1;
      return Ok(1);
    }
  }
}
