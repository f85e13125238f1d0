/**
 * What the counters mean: every bucket of every table is the histogram of the
 * bases counted under its read group and key, N all of them and B the
 * mismatching ones, and the counted-bases counter is the number of them.
 */
module Ledger {
  import opened Covariates
  import opened Platforms
  import opened Aggregation

  /** One counted base: the read group and key it was counted under, and whether it mismatched the reference. */
  datatype Sighting = Sighting(rg: string, key: Key, mismatch: bool)

  /** The counters of table `g` are the histogram of the sightings under `g`. */
  ghost predicate TableCounts(g: string, t: Table, seen: multiset<Sighting>)
  {
    forall k :: k in t ==>
      t[k].n == seen[Sighting(g, k, false)] + seen[Sighting(g, k, true)] && t[k].b == seen[Sighting(g, k, true)]
  }

  /** Every sighting has its bucket, and every bucket counts exactly its sightings. */
  ghost predicate Histogram(data: Registry, seen: multiset<Sighting>)
  {
    && (forall s :: s in seen ==> s.rg in data && s.key in data[s.rg])
    && (forall g :: g in data ==> TableCounts(g, data[g], seen))
  }

  /** The tables are valid and are exactly the histogram of the sightings. */
  ghost predicate Consistent(data: Registry, seen: multiset<Sighting>)
  {
    TablesValid(data) && Histogram(data, seen)
  }

  /** Empty tables hold no sightings. */
  lemma EmptyTablesConsistent(data: Registry)
    requires forall g :: g in data ==> data[g] == map[]
    ensures Consistent(data, multiset{})
  {
  }

  /** Counting one base in the bucket of `k` of group `g` is recording one more sighting. */
  lemma HistogramBump(data: Registry, seen: multiset<Sighting>, g: string, k: Key, base: char, ref: char)
    requires Histogram(data, seen) && g in data
    ensures Histogram(data[g := Bump(data[g], k, base, ref)], seen + multiset{Sighting(g, k, base != ref)})
  {
    var t := Bump(data[g], k, base, ref);
    var data' := data[g := t];
    var s0 := Sighting(g, k, base != ref);
    var seen' := seen + multiset{s0};
    forall s | s in seen'
      ensures s.rg in data' && s.key in data'[s.rg]
    {
      if s != s0 {
        assert s in seen;
      }
    }
    forall g' | g' in data'
      ensures TableCounts(g', data'[g'], seen')
    {
      if g' == g {
        forall k' | k' in t
          ensures t[k'].n == seen'[Sighting(g, k', false)] + seen'[Sighting(g, k', true)]
          ensures t[k'].b == seen'[Sighting(g, k', true)]
        {
          if k' == k {
            if k !in data[g] {
              assert Sighting(g, k, false) !in seen;
              assert Sighting(g, k, true) !in seen;
            }
          } else {
            assert k' in data[g];
          }
        }
      } else {
        assert TableCounts(g', data[g'], seen);
      }
    }
  }

  /** Counting one base under a well-formed key keeps the tables consistent with the sightings. */
  lemma CountKeepsConsistent(data: Registry, seen: multiset<Sighting>, g: string, k: Key, base: char, ref: char)
    requires Consistent(data, seen) && g in data && KeyValid(k)
    ensures Consistent(data[g := Bump(data[g], k, base, ref)], seen + multiset{Sighting(g, k, base != ref)})
  {
    HistogramBump(data, seen, g, k, base, ref);
    BumpKeepsValid(data[g], k, base, ref);
    var data' := data[g := Bump(data[g], k, base, ref)];
    forall g' | g' in data' ensures TableValid(data'[g']) {
      if g' != g {
        assert TableValid(data[g']);
      }
    }
  }

  /** The sighting a read makes at a locus: one when it contributes, none otherwise. */
  ghost function Sighted(cfg: Config, complement: char -> char, read: Read, offset: int, ref: char): (s: multiset<Sighting>)
    ensures |s| == if Contributes(cfg, read, offset) then 1 else 0
  {
    if Contributes(cfg, read, offset) then
      var ob := Observe(read, offset, ref, complement);
      multiset{Sighting(read.group.id, ob.CovariateKey(), ob.Mismatch())}
    else
      multiset{}
  }

  /** The sightings of a list of reads at one locus. */
  ghost function Sightings(cfg: Config, complement: char -> char, locusReads: seq<Read>, offsets: seq<int>, ref: char): (s: multiset<Sighting>)
    requires |locusReads| == |offsets|
    ensures |s| <= |locusReads|
  {
    if locusReads == [] then multiset{}
    else
      var n := |locusReads| - 1;
      Sightings(cfg, complement, locusReads[..n], offsets[..n], ref) + Sighted(cfg, complement, locusReads[n], offsets[n], ref)
  }

  /** One read keeps the tables the histogram of the sightings, and counts exactly its own sightings. */
  lemma ProcessReadHistogram(cfg: Config, complement: char -> char, t: Tally, seen: multiset<Sighting>, read: Read, offset: int, ref: char)
    requires Admissible(cfg, t.data, read, offset)
    requires Consistent(t.data, seen)
    ensures var r := ProcessRead(cfg, complement, t, read, offset, ref);
      var s := Sighted(cfg, complement, read, offset, ref);
      Consistent(r.data, seen + s) && r.countedBases == t.countedBases + |s|
  {
    if Contributes(cfg, read, offset) {
      var ob := Observe(read, offset, ref, complement);
      CountKeepsConsistent(t.data, seen, read.group.id, ob.CovariateKey(), ob.base, ob.ref);
    } else {
      ProcessReadCount(cfg, complement, t, read, offset, ref);
      assert seen + multiset{} == seen;
    }
  }

  /**
   * Processing a locus keeps every bucket the histogram of the bases counted
   * under it, and adds to `countedBases` exactly the number of bases counted:
   * so `countedBases` stays the sum of N over all buckets.
   */
  lemma {:induction false} ProcessReadsHistogram(cfg: Config, complement: char -> char, t: Tally, seen: multiset<Sighting>, locusReads: seq<Read>, offsets: seq<int>, ref: char)
    requires AllAdmissible(cfg, t.data, locusReads, offsets)
    requires Consistent(t.data, seen)
    ensures var r := ProcessReads(cfg, complement, t, locusReads, offsets, ref);
      var s := Sightings(cfg, complement, locusReads, offsets, ref);
      Consistent(r.data, seen + s) && r.countedBases == t.countedBases + |s|
  {
    if locusReads != [] {
      var n := |locusReads| - 1;
      assert locusReads[..n + 1] == locusReads && offsets[..n + 1] == offsets;
      ProcessReadsStep(cfg, complement, t, locusReads, offsets, ref, n);
      ProcessReadsHistogram(cfg, complement, t, seen, locusReads[..n], offsets[..n], ref);
      var before := ProcessReads(cfg, complement, t, locusReads[..n], offsets[..n], ref);
      var s := Sightings(cfg, complement, locusReads[..n], offsets[..n], ref);
      ProcessReadHistogram(cfg, complement, before, seen + s, locusReads[n], offsets[n], ref);
      assert seen + s + Sighted(cfg, complement, locusReads[n], offsets[n], ref)
          == seen + Sightings(cfg, complement, locusReads, offsets, ref);
    }
  }
}
