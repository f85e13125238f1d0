/**
 * Values of the covariate-counting engine: reads and read groups as the
 * walker sees them, the covariate key (cycle, reported quality, dinucleotide),
 * the per-key counters, and the per-base rule that turns a read offset into
 * an observation under that key.
 */
module Covariates {

  /** A Java `byte`. */
  type Int8 = x: int | -128 <= x < 128

  /** Java's `(char) b` for a byte: sign-extend to int, keep the low 16 bits. */
  function ToChar(b: Int8): char
  {
    if b >= 0 then b as char else (b + 0x1_0000) as char
  }

  /** Java's `(byte) c` for a char: keep the low 8 bits, read them as signed. */
  function ToByte(c: char): Int8
  {
    var v := c as int % 256;
    if v < 128 then v else v - 256
  }

  /** Widening a byte to a char and narrowing it back gives the byte again. */
  lemma ByteCharRoundTrip(b: Int8)
    ensures ToByte(ToChar(b)) == b
  {
    if b < 0 {
      assert ToChar(b) as int == b + 0x1_0000;
      assert (b + 0x1_0000) % 256 == b + 256;
    }
  }

  /** A header read group: its id and its optional PL (platform) attribute. */
  datatype ReadGroupRecord = ReadGroupRecord(id: string, platform: Option<string>)

  datatype Option<T> = None | Some(value: T)

  /**
   * An aligned read. `group` is the header read group its RG attribute
   * resolves to; `bases` and `quals` are the raw byte arrays of the record.
   */
  datatype Read = Read(
    bases: seq<Int8>,
    quals: seq<Int8>,
    negativeStrand: bool,
    mappingQuality: int,
    group: ReadGroupRecord)

  /**
   * The per-base rule can look at `offset`: it is neither the first nor the
   * last base, and the quality array has an entry there (a record without
   * qualities has an empty array).
   */
  predicate Observable(read: Read, offset: int)
  {
    0 < offset < |read.bases| - 1 && offset < |read.quals|
  }

  /** Covariate key handed to the per-group table: machine cycle, reported quality, dinucleotide bytes. */
  datatype Key = Key(pos: int, qual: int, dinuc: seq<Int8>)

  /** Counters of one bucket: N observations, B of them mismatching the reference. */
  datatype RecalDatum = RecalDatum(n: nat, b: nat)
  {
    /**
     * `inc(base, ref)`: one more observation, and one more mismatch when the
     * base differs from the reference. A bucket never counts more mismatches
     * than bases, and N - B, the matches, grows exactly on a match.
     */
    function Inc(base: char, ref: char): (d: RecalDatum)
      ensures 1 <= d.n && (b <= n ==> d.b <= d.n)
      ensures d.n - d.b == if base == ref then n - b + 1 else n - b
    {
      RecalDatum(n + 1, if base != ref then b + 1 else b)
    }
  }

  const EMPTY_DATUM := RecalDatum(0, 0)

  /** The table of one read group. */
  type Table = map<Key, RecalDatum>

  /** Read-group id to its table. */
  type Registry = map<string, Table>

  /** Machine cycle of a read offset: the offset itself on the forward strand, counted from the other end on the reverse strand. */
  function Cycle(readLength: int, negativeStrand: bool, offset: int): int
  {
    if negativeStrand then readLength - (offset + 1) else offset
  }

  /** Offsets `o` and `L-1-o` of reads on opposite strands are sequenced in the same machine cycle. */
  lemma CycleMirror(readLength: int, offset: int)
    ensures Cycle(readLength, false, offset) == Cycle(readLength, true, readLength - 1 - offset)
    ensures Cycle(readLength, true, offset) == Cycle(readLength, false, readLength - 1 - offset)
  {
  }

  /** The key `getRecalData` builds: the dinucleotide is the pair of bytes `(byte) prevBase, (byte) base`. */
  function RecalKey(pos: int, qual: int, prevBase: char, base: char): Key
  {
    Key(pos, qual, [ToByte(prevBase), ToByte(base)])
  }

  /** What the per-base rule extracts from a read at one offset, in sequencing orientation. */
  datatype Observation = Observation(cycle: int, qual: int, prevBase: char, base: char, ref: char)
  {
    function CovariateKey(): Key
    {
      RecalKey(cycle, qual, prevBase, base)
    }

    predicate Mismatch()
    {
      base != ref
    }
  }

  /** The observation `updateDataFromRead` makes for the base at `offset` of `read` over reference base `ref`. */
  function Observe(read: Read, offset: int, ref: char, complement: char -> char): (ob: Observation)
    requires Observable(read, offset)
    ensures 1 <= ob.cycle <= |read.bases| - 2
    ensures ob.qual == read.quals[offset] as int
  {
    var base := ToChar(read.bases[offset]);
    var prevBase := ToChar(read.bases[offset - 1]);
    if read.negativeStrand then
      Observation(Cycle(|read.bases|, true, offset), read.quals[offset],
                  complement(ToChar(read.bases[offset + 1])), complement(base), complement(ref))
    else
      Observation(Cycle(|read.bases|, false, offset), read.quals[offset], prevBase, base, ref)
  }

  /** On the forward strand the dinucleotide key is exactly the two read bytes ending at the offset. */
  lemma ForwardDinucIsReadBytes(read: Read, offset: int, ref: char, complement: char -> char)
    requires Observable(read, offset) && !read.negativeStrand
    ensures Observe(read, offset, ref, complement).CovariateKey().dinuc == [read.bases[offset - 1], read.bases[offset]]
    ensures Observe(read, offset, ref, complement).CovariateKey().pos == offset
  {
    ByteCharRoundTrip(read.bases[offset - 1]);
    ByteCharRoundTrip(read.bases[offset]);
  }

  /** `rc` holds the reverse complement of the forward-strand read `fwd`, with qualities reversed. */
  predicate IsReverseComplementOf(rc: Read, fwd: Read, complement: char -> char)
  {
    && !fwd.negativeStrand && rc.negativeStrand
    && |rc.bases| == |fwd.bases| == |rc.quals| == |fwd.quals|
    && (forall j :: 0 <= j < |rc.bases| ==> ToChar(rc.bases[j]) == complement(ToChar(fwd.bases[|fwd.bases| - 1 - j])))
    && (forall j :: 0 <= j < |rc.quals| ==> rc.quals[j] == fwd.quals[|fwd.quals| - 1 - j])
  }

  /**
   * Strand symmetry: when the complement is an involution, the reverse-strand
   * record of a read, at the mirrored offset and over the complemented
   * reference base, yields the same cycle, quality, dinucleotide, base and
   * reference as the forward record, hence the same key and outcome.
   */
  lemma ReverseComplementSameObservation(fwd: Read, rc: Read, offset: int, ref: char, complement: char -> char)
    requires forall c :: complement(complement(c)) == c
    requires IsReverseComplementOf(rc, fwd, complement)
    requires 0 < offset < |fwd.bases| - 1
    ensures Observable(fwd, offset) && Observable(rc, |rc.bases| - 1 - offset)
    ensures Observe(rc, |rc.bases| - 1 - offset, complement(ref), complement) == Observe(fwd, offset, ref, complement)
  {
    var len := |fwd.bases|;
    var mirrored := len - 1 - offset;
    assert ToChar(rc.bases[mirrored]) == complement(ToChar(fwd.bases[offset]));
    assert ToChar(rc.bases[mirrored + 1]) == complement(ToChar(fwd.bases[offset - 1]));
    assert rc.quals[mirrored] == fwd.quals[offset];
  }

  /**
   * Get-or-create on one table: a missing key is inserted with an empty
   * bucket, an existing one is left as it is, and no key is removed.
   */
  function GetOrCreate(t: Table, k: Key): (r: Table)
    ensures k in r && r.Keys == t.Keys + {k}
    ensures forall k' :: k' in t ==> r[k'] == t[k']
    ensures k !in t ==> r[k] == EMPTY_DATUM
  {
    if k in t then t else t[k := EMPTY_DATUM]
  }

  /** Looking the same key up twice finds the same bucket and creates nothing the second time. */
  lemma GetOrCreateIdempotent(t: Table, k: Key)
    ensures GetOrCreate(GetOrCreate(t, k), k) == GetOrCreate(t, k)
  {
  }

  /**
   * Get-or-create followed by `inc`: the bucket for `k` is created empty when
   * missing, then counts one observation; no other bucket changes and no key
   * is removed.
   */
  function Bump(t: Table, k: Key, base: char, ref: char): (r: Table)
    ensures r.Keys == t.Keys + {k}
    ensures forall k' :: k' in t && k' != k ==> r[k'] == t[k']
    ensures r[k].n == (if k in t then t[k].n else 0) + 1
    ensures r[k].b == (if k in t then t[k].b else 0) + (if base != ref then 1 else 0)
  {
    var d := if k in t then t[k] else EMPTY_DATUM;
    t[k := d.Inc(base, ref)]
  }

  /** The key of a counted base: positive cycle and quality, two dinucleotide bytes. */
  predicate KeyValid(k: Key)
  {
    k.pos >= 1 && k.qual >= 1 && |k.dinuc| == 2
  }

  /** A bucket that has seen at least one base and never more mismatches than bases, under a well-formed key. */
  predicate BucketValid(k: Key, d: RecalDatum)
  {
    1 <= d.n && d.b <= d.n && KeyValid(k)
  }

  /** Every bucket of one read group's table is valid. */
  ghost predicate TableValid(t: Table)
  {
    forall k :: k in t ==> BucketValid(k, t[k])
  }

  /** Every bucket the engine holds is valid. */
  ghost predicate TablesValid(data: Registry)
  {
    forall g :: g in data ==> TableValid(data[g])
  }

  /** Counting one more base under a well-formed key keeps every bucket valid. */
  lemma BumpKeepsValid(t: Table, k: Key, base: char, ref: char)
    requires TableValid(t) && KeyValid(k)
    ensures TableValid(Bump(t, k, base, ref))
  {
    var t' := Bump(t, k, base, ref);
    forall k' | k' in t'
      ensures BucketValid(k', t'[k'])
    {
      if k' == k {
        if k in t {
          assert BucketValid(k, t[k]);
        }
      } else {
        assert BucketValid(k', t[k']);
      }
    }
  }
}
