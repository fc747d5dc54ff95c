/**
 * The genomic region partitioner of `pot/utils/genome.py`.
 *
 * `LoadBamChromosomeLengths` reads the ordered (name, length) list from an
 * alignment header, optionally restricted to a set of chromosome names;
 * `GetRegions` cuts that list into fixed-width windows, clipped at each
 * chromosome's end, and numbers them globally from 0; `GetBamRegions` is
 * the two in sequence.  The header's parallel `references` and `lengths`
 * lists are inputs: opening the alignment file is not modelled.
 */
module Genome {
  import opened Wrappers
  import opened PyStr

  // ---------------------------------------------------------------------
  // Regions and their locus tokens

  /** A window `[beg, end]` of a chromosome, 1-based and closed at both ends. */
  datatype Region = Region(chrom: string, beg: nat, end: nat)

  /** Position `p` lies in region `r`. */
  predicate Covers(r: Region, p: nat) {
    r.beg <= p <= r.end
  }

  /** The locus token `"{chrom}:{beg}-{end}"` handed to the per-region tools. */
  function Render(r: Region): (token: string)
    ensures StartsWith(token, r.chrom + ":")
  {
    r.chrom + ":" + NatToString(r.beg) + "-" + NatToString(r.end)
  }

  /**
   * Reads a locus token back.  The chromosome is everything before the
   * LAST ':' (chromosome names may themselves contain ':' and '-'); the
   * rest must be two decimal numbers separated by '-'.
   */
  function ParseRegion(token: string): Option<Region> {
    match LastIndexOf(token, ':')
    case None => None
    case Some(i) => ParseSpan(token[..i], token[i + 1..])
  }

  /** The `"{beg}-{end}"` part of a token, split at its first '-'. */
  function ParseSpan(chrom: string, span: string): Option<Region> {
    match FirstIndexOf(span, '-')
    case None => None
    case Some(j) =>
      var b := span[..j];
      var e := span[j + 1..];
      if |b| > 0 && |e| > 0 && AllDigits(b) && AllDigits(e)
      then Some(Region(chrom, DigitsValue(b), DigitsValue(e)))
      else None
  }

  /** The span part `"{beg}-{end}"` of a token holds no ':' and its first '-' follows the start. */
  lemma SpanShape(b: string, e: string)
    requires AllDigits(b) && AllDigits(e)
    ensures ':' !in b + "-" + e
    ensures FirstIndexOf(b + "-" + e, '-') == Some(|b|)
  {
    var span := b + "-" + e;
    forall k | 0 <= k < |span| ensures span[k] != ':' {
      if k < |b| { assert span[k] == b[k]; }
      else if k > |b| { assert span[k] == e[k - |b| - 1]; }
    }
    forall k | 0 <= k < |b| ensures b[k] != '-' {
      assert IsDigit(b[k]);
    }
    assert span == b + ['-'] + e;
    FirstIndexOfSplit(b, '-', e);
  }

  /** A token whose span holds no ':' splits at the ':' after the chromosome. */
  lemma ParseRegionSplit(chrom: string, span: string)
    requires ':' !in span
    ensures ParseRegion(chrom + [':'] + span) == ParseSpan(chrom, span)
  {
    var token := chrom + [':'] + span;
    LastIndexOfSplit(chrom, ':', span);
    assert token[|chrom| + 1..] == span;
    assert token[..|chrom|] == chrom;
  }

  lemma ParseSpanRender(chrom: string, beg: nat, end: nat)
    ensures ParseSpan(chrom, NatToString(beg) + "-" + NatToString(end)) == Some(Region(chrom, beg, end))
  {
    var b := NatToString(beg);
    var e := NatToString(end);
    var span := b + "-" + e;
    SpanShape(b, e);
    assert span[..|b|] == b;
    assert span[|b| + 1..] == e;
    NatToStringRoundTrip(beg);
    NatToStringRoundTrip(end);
  }

  /** Every locus token reads back as the region it was rendered from. */
  lemma ParseRender(r: Region)
    ensures ParseRegion(Render(r)) == Some(r)
  {
    var span := NatToString(r.beg) + "-" + NatToString(r.end);
    assert Render(r) == r.chrom + [':'] + span;
    SpanShape(NatToString(r.beg), NatToString(r.end));
    ParseRegionSplit(r.chrom, span);
    ParseSpanRender(r.chrom, r.beg, r.end);
  }

  /** Distinct regions get distinct locus tokens. */
  lemma RenderInjective(r1: Region, r2: Region)
    requires Render(r1) == Render(r2)
    ensures r1 == r2
  {
    ParseRender(r1);
    ParseRender(r2);
  }

  // ---------------------------------------------------------------------
  // Integer helpers

  function Min(a: nat, b: nat): nat {
    if a <= b then a else b
  }

  /** ceil(a / b) for a >= 0 and b > 0. */
  function CeilDiv(a: nat, b: nat): nat
    requires b > 0
  {
    (a + b - 1) / b
  }

  lemma MulMono(x: int, y: int, b: nat)
    ensures x <= y ==> x * b <= y * b
  {
  }

  lemma DivUnique(a: int, b: int, q: int)
    requires b > 0 && q * b <= a < q * b + b
    ensures a / b == q
  {
    var d := a / b - q;
    assert a == (a / b) * b + a % b;
    assert d * b == (a / b) * b - q * b;
    MulMono(1, d, b);
    MulMono(d, -1, b);
  }

  /** Adding the divisor adds one to the quotient. */
  lemma DivAddDivisor(x: nat, b: nat)
    requires b > 0
    ensures (x + b) / b == x / b + 1
  {
    assert x == (x / b) * b + x % b;
    DivUnique(x + b, b, x / b + 1);
  }

  /** CeilDiv(a, b) is the least n with n * b >= a. */
  lemma CeilDivBounds(a: nat, b: nat)
    requires b > 0
    ensures CeilDiv(a, b) * b >= a
    ensures CeilDiv(a, b) == 0 || (CeilDiv(a, b) - 1) * b < a
  {
    var n := CeilDiv(a, b);
    var r := (a + b - 1) % b;
    assert a + b - 1 == n * b + r;
    assert (n - 1) * b == n * b - b;
  }

  // ---------------------------------------------------------------------
  // Python's range and zip

  /** `list(range(start, stop, step))` for a positive step. */
  function PyRange(start: nat, stop: nat, step: nat): (r: seq<nat>)
    requires step > 0
    ensures |r| > 0 ==> r[0] == start && r[|r| - 1] < stop
    decreases stop - start
  {
    if start >= stop then [] else [start] + PyRange(start + step, stop, step)
  }

  /** A range holds ceil((stop - start) / step) terms of an arithmetic progression. */
  lemma {:induction false} PyRangeLength(start: nat, stop: nat, step: nat)
    requires step > 0
    ensures |PyRange(start, stop, step)| == if stop <= start then 0 else CeilDiv(stop - start, step)
    decreases stop - start
  {
    if start < stop {
      PyRangeLength(start + step, stop, step);
      var d := stop - start;
      if d <= step {
        DivUnique(d + step - 1, step, 1);
      } else {
        DivAddDivisor(d - step + step - 1, step);
      }
    }
  }

  lemma {:induction false} PyRangeElements(start: nat, stop: nat, step: nat)
    requires step > 0
    ensures forall i :: 0 <= i < |PyRange(start, stop, step)| ==> PyRange(start, stop, step)[i] == start + i * step
    decreases stop - start
  {
    if start < stop {
      PyRangeElements(start + step, stop, step);
      var r := PyRange(start, stop, step);
      forall i | 0 <= i < |r| ensures r[i] == start + i * step {
        if i > 0 {
          assert r[i] == PyRange(start + step, stop, step)[i - 1];
          assert (i - 1) * step == i * step - step;
        }
      }
    }
  }

  /** A range holds ceil((stop - start) / step) terms of an arithmetic progression. */
  lemma PyRangeShape(start: nat, stop: nat, step: nat)
    requires step > 0
    ensures |PyRange(start, stop, step)| == if stop <= start then 0 else CeilDiv(stop - start, step)
    ensures forall i :: 0 <= i < |PyRange(start, stop, step)| ==> PyRange(start, stop, step)[i] == start + i * step
  {
    PyRangeLength(start, stop, step);
    PyRangeElements(start, stop, step);
  }

  /** `list(zip(a, b))`. */
  function Zip<A, B>(a: seq<A>, b: seq<B>): (r: seq<(A, B)>)
    ensures |r| <= |a| && |r| <= |b| && (|r| == |a| || |r| == |b|)
  {
    seq(Min(|a|, |b|), i requires 0 <= i < Min(|a|, |b|) => (a[i], b[i]))
  }

  // ---------------------------------------------------------------------
  // Windows of one chromosome

  /**
   * The windows `get_regions` emits for one chromosome, in emission order:
   * `zip(range(1, L + 1, s), range(s, L + s, s))`, each end clipped to L.
   */
  function ChromRegions(chrom: string, length: nat, splitSize: nat): seq<Region>
    requires splitSize > 0
  {
    var pairs := Zip(PyRange(1, length + 1, splitSize), PyRange(splitSize, length + splitSize, splitSize));
    seq(|pairs|, i requires 0 <= i < |pairs| => Region(chrom, pairs[i].0, Min(pairs[i].1, length)))
  }

  /** Window `i` of a chromosome written out: `[1 + i*s, min((i+1)*s, L)]`. */
  function Window(chrom: string, length: nat, splitSize: nat, i: nat): Region {
    Region(chrom, 1 + i * splitSize, Min((i + 1) * splitSize, length))
  }

  /** A chromosome of length L gets ceil(L / s) windows, window i being `[1 + i*s, min((i+1)*s, L)]`. */
  lemma ChromRegionsClosedForm(chrom: string, length: nat, s: nat)
    requires s > 0
    ensures |ChromRegions(chrom, length, s)| == CeilDiv(length, s)
    ensures forall i :: 0 <= i < CeilDiv(length, s) ==> ChromRegions(chrom, length, s)[i] == Window(chrom, length, s, i)
  {
    PyRangeShape(1, length + 1, s);
    PyRangeShape(s, length + s, s);
    if length == 0 {
      DivUnique(s - 1, s, 0);
    }
    var w := ChromRegions(chrom, length, s);
    forall i | 0 <= i < |w| ensures w[i] == Window(chrom, length, s, i) {
      assert s + i * s == (i + 1) * s;
    }
  }

  /**
   * The windows of one chromosome tile `[1, L]`: the first starts at 1, the
   * last ends at L, each starts right after the previous one ends, and
   * each is at most `s` wide.  A chromosome of length 0 gets no window.
   */
  lemma ChromRegionsTile(chrom: string, length: nat, s: nat)
    requires s > 0
    ensures var w := ChromRegions(chrom, length, s);
      (|w| == 0 <==> length == 0) &&
      (|w| > 0 ==> w[0].beg == 1 && w[|w| - 1].end == length) &&
      (forall i :: 0 <= i < |w| ==> w[i].chrom == chrom && 1 <= w[i].beg <= w[i].end <= length && w[i].end - w[i].beg < s) &&
      (forall i :: 0 <= i < |w| - 1 ==> w[i].end + 1 == w[i + 1].beg)
  {
    ChromRegionsClosedForm(chrom, length, s);
    CeilDivBounds(length, s);
    var w := ChromRegions(chrom, length, s);
    var n := |w|;
    if length > 0 {
      assert n > 0;
    }
    forall i | 0 <= i < n
      ensures w[i].chrom == chrom && 1 <= w[i].beg <= w[i].end <= length && w[i].end - w[i].beg < s
    {
      MulMono(i, n - 1, s);
      assert (i + 1) * s == i * s + s;
    }
    forall i | 0 <= i < n - 1 ensures w[i].end + 1 == w[i + 1].beg {
      MulMono(i + 1, n - 1, s);
    }
  }

  /** A window of a chromosome ends before every later window starts. */
  lemma ChromRegionsOrdered(chrom: string, length: nat, s: nat, i: nat, j: nat)
    requires s > 0 && i < j < |ChromRegions(chrom, length, s)|
    ensures ChromRegions(chrom, length, s)[i].end < ChromRegions(chrom, length, s)[j].beg
  {
    ChromRegionsClosedForm(chrom, length, s);
    MulMono(i + 1, j, s);
    assert (i + 1) * s == i * s + s;
  }

  /** Position `p` of `[1, L]` lies in window (p - 1) / s, which is one of the ceil(L / s) windows. */
  lemma WindowContaining(chrom: string, length: nat, s: nat, p: nat)
    requires s > 0 && 1 <= p <= length
    ensures (p - 1) / s < CeilDiv(length, s)
    ensures Covers(Window(chrom, length, s, (p - 1) / s), p)
  {
    var i := (p - 1) / s;
    var n := CeilDiv(length, s);
    CeilDivBounds(length, s);
    assert p - 1 == i * s + (p - 1) % s;
    MulMono(n, i, s);
    assert (i + 1) * s == i * s + s;
  }

  /** Every position of `[1, L]` lies in exactly one window of its chromosome, window (p - 1) / s. */
  lemma ChromRegionsExactCover(chrom: string, length: nat, s: nat, p: nat)
    requires s > 0 && 1 <= p <= length
    ensures (p - 1) / s < |ChromRegions(chrom, length, s)|
    ensures Covers(ChromRegions(chrom, length, s)[(p - 1) / s], p)
    ensures forall j :: 0 <= j < |ChromRegions(chrom, length, s)| && Covers(ChromRegions(chrom, length, s)[j], p) ==> j == (p - 1) / s
  {
    ChromRegionsClosedForm(chrom, length, s);
    WindowContaining(chrom, length, s, p);
    var w := ChromRegions(chrom, length, s);
    var i := (p - 1) / s;
    forall j | 0 <= j < |w| && Covers(w[j], p) ensures j == i {
      if j < i {
        ChromRegionsOrdered(chrom, length, s, j, i);
      } else if j > i {
        ChromRegionsOrdered(chrom, length, s, i, j);
      }
    }
  }

  /** A chromosome no longer than the split size gets the single window `chrom:1-L`. */
  lemma ShortChromosomeOneRegion(chrom: string, length: nat, s: nat)
    requires 0 < length <= s
    ensures ChromRegions(chrom, length, s) == [Region(chrom, 1, length)]
  {
    ChromRegionsClosedForm(chrom, length, s);
    DivUnique(length + s - 1, s, 1);
  }

  /** A chromosome of length 0 gets no window. */
  lemma EmptyChromosomeNoRegion(chrom: string, s: nat)
    requires s > 0
    ensures ChromRegions(chrom, 0, s) == []
  {
    ChromRegionsClosedForm(chrom, 0, s);
    DivUnique(s - 1, s, 0);
  }

  // ---------------------------------------------------------------------
  // All chromosomes, globally indexed

  /** The windows of every chromosome, chromosome by chromosome in list order. */
  function Partition(lengths: seq<(string, nat)>, s: nat): seq<Region>
    requires s > 0
    decreases |lengths|
  {
    if |lengths| == 0 then []
    else
      var last := lengths[|lengths| - 1];
      Partition(lengths[..|lengths| - 1], s) + ChromRegions(last.0, last.1, s)
  }

  /** The sum of ceil(L / s) over the chromosomes. */
  function TotalWindows(lengths: seq<(string, nat)>, s: nat): nat
    requires s > 0
    decreases |lengths|
  {
    if |lengths| == 0 then 0
    else TotalWindows(lengths[..|lengths| - 1], s) + CeilDiv(lengths[|lengths| - 1].1, s)
  }

  /** Index `k` of a sequence of regions is mapped to its locus token. */
  function IndexMap(regions: seq<Region>): map<nat, string> {
    map k: nat | k < |regions| :: Render(regions[k])
  }

  lemma IndexMapAppend(regions: seq<Region>, r: Region)
    ensures IndexMap(regions + [r]) == IndexMap(regions)[|regions| := Render(r)]
  {
    var m := IndexMap(regions + [r]);
    var m' := IndexMap(regions)[|regions| := Render(r)];
    assert m.Keys == m'.Keys;
    forall k | k in m ensures m[k] == m'[k] {
      if k < |regions| {
        assert (regions + [r])[k] == regions[k];
      }
    }
  }

  /** `get_regions` as a value: one chromosome name per index without a split size, else the numbered windows. */
  function Regions(lengths: seq<(string, nat)>, splitSize: Option<nat>): map<nat, string>
    requires splitSize.Some? ==> splitSize.value > 0
  {
    match splitSize
    case None => map k: nat | k < |lengths| :: lengths[k].0
    case Some(s) => IndexMap(Partition(lengths, s))
  }

  lemma {:induction false} PartitionSize(lengths: seq<(string, nat)>, s: nat)
    requires s > 0
    ensures |Partition(lengths, s)| == TotalWindows(lengths, s)
    decreases |lengths|
  {
    if |lengths| > 0 {
      var last := lengths[|lengths| - 1];
      PartitionSize(lengths[..|lengths| - 1], s);
      ChromRegionsClosedForm(last.0, last.1, s);
    }
  }

  /** The windows of the first `c` chromosomes are a prefix of the windows of all of them. */
  lemma {:induction false} PartitionPrefix(lengths: seq<(string, nat)>, c: nat, s: nat)
    requires s > 0 && c <= |lengths|
    ensures Partition(lengths[..c], s) <= Partition(lengths, s)
    decreases |lengths|
  {
    if c < |lengths| {
      var init := lengths[..|lengths| - 1];
      assert init[..c] == lengths[..c];
      PartitionPrefix(init, c, s);
    } else {
      assert lengths[..c] == lengths;
    }
  }

  /**
   * Global numbering: window `i` of chromosome `c` has index
   * (number of windows of the chromosomes before `c`) + i, so indices run
   * chromosome by chromosome and continue across chromosome boundaries.
   */
  lemma RegionIndex(lengths: seq<(string, nat)>, s: nat, c: nat, i: nat)
    requires s > 0 && c < |lengths| && i < CeilDiv(lengths[c].1, s)
    ensures |Partition(lengths, s)| == TotalWindows(lengths, s)
    ensures TotalWindows(lengths[..c], s) + i < TotalWindows(lengths, s)
    ensures Partition(lengths, s)[TotalWindows(lengths[..c], s) + i] == Window(lengths[c].0, lengths[c].1, s, i)
  {
    var before := Partition(lengths[..c], s);
    var upTo := Partition(lengths[..c + 1], s);
    assert lengths[..c + 1][..c] == lengths[..c];
    assert upTo == before + ChromRegions(lengths[c].0, lengths[c].1, s);
    ChromRegionsClosedForm(lengths[c].0, lengths[c].1, s);
    PartitionPrefix(lengths, c + 1, s);
    PartitionSize(lengths[..c], s);
    PartitionSize(lengths, s);
    assert upTo[|before| + i] == ChromRegions(lengths[c].0, lengths[c].1, s)[i];
  }

  /**
   * With a split size, the region map has exactly the indices 0 .. N-1,
   * N the sum of ceil(L / s), and index `k` holds the token of the k-th window.
   */
  lemma RegionMapKeys(lengths: seq<(string, nat)>, s: nat)
    requires s > 0
    ensures forall k: nat :: k in Regions(lengths, Some(s)) <==> k < TotalWindows(lengths, s)
    ensures forall k :: 0 <= k < TotalWindows(lengths, s) ==> Regions(lengths, Some(s))[k] == Render(Partition(lengths, s)[k])
  {
    PartitionSize(lengths, s);
  }

  lemma Chr1Windows()
    ensures ChromRegions("chr1", 250, 100) == [Region("chr1", 1, 100), Region("chr1", 101, 200), Region("chr1", 201, 250)]
  {
    ChromRegionsClosedForm("chr1", 250, 100);
    DivUnique(349, 100, 3);
  }

  lemma ExampleTokens()
    ensures Render(Region("chr1", 1, 100)) == "chr1:1-100"
    ensures Render(Region("chr1", 101, 200)) == "chr1:101-200"
    ensures Render(Region("chr1", 201, 250)) == "chr1:201-250"
    ensures Render(Region("chr2", 1, 50)) == "chr2:1-50"
  {
    ExampleDecimals();
  }

  lemma ExampleDecimals()
    ensures NatToString(1) == "1" && NatToString(50) == "50"
    ensures NatToString(100) == "100" && NatToString(101) == "101"
    ensures NatToString(200) == "200" && NatToString(201) == "201" && NatToString(250) == "250"
  {
    assert NatToString(10) == "10";
    assert NatToString(20) == "20";
    assert NatToString(25) == "25";
  }

  lemma ExamplePartition()
    ensures Partition([("chr1", 250), ("chr2", 50)], 100)
         == [Region("chr1", 1, 100), Region("chr1", 101, 200), Region("chr1", 201, 250), Region("chr2", 1, 50)]
  {
    var lengths := [("chr1", 250), ("chr2", 50)];
    Chr1Windows();
    ShortChromosomeOneRegion("chr2", 50, 100);
    assert lengths[..1] == [("chr1", 250)];
    assert [("chr1", 250)][..0] == [];
  }

  lemma IndexMapOfFour(a: Region, b: Region, c: Region, d: Region)
    ensures IndexMap([a, b, c, d]) == map[0 := Render(a), 1 := Render(b), 2 := Render(c), 3 := Render(d)]
  {
    var m := IndexMap([a, b, c, d]);
    assert m.Keys == {0, 1, 2, 3};
  }

  /** The four-window example: chr1 of 250 bases and chr2 of 50 bases, split size 100. */
  lemma TwoChromosomeExample()
    ensures Regions([("chr1", 250), ("chr2", 50)], Some(100))
         == map[0 := "chr1:1-100", 1 := "chr1:101-200", 2 := "chr1:201-250", 3 := "chr2:1-50"]
  {
    ExamplePartition();
    ExampleTokens();
    IndexMapOfFour(Region("chr1", 1, 100), Region("chr1", 101, 200), Region("chr1", 201, 250), Region("chr2", 1, 50));
  }

  /** `get_regions`: fills the region map window by window, numbering from 0 (genome.py:6-26). */
  method GetRegions(chromosomeLengths: seq<(string, nat)>, splitSize: Option<nat>) returns (regions: map<nat, string>)
    requires splitSize.Some? ==> splitSize.value > 0
    ensures regions == Regions(chromosomeLengths, splitSize)
  {
    if splitSize.None? {
      return map k: nat | k < |chromosomeLengths| :: chromosomeLengths[k].0;
    }
    var s := splitSize.value;
    regions := map[];
    var regionIndex: nat := 0;
    ghost var emitted: seq<Region> := [];
    for c := 0 to |chromosomeLengths|
      invariant emitted == Partition(chromosomeLengths[..c], s)
      invariant regionIndex == |emitted|
      invariant regions == IndexMap(emitted)
    {
      var chrom, length := chromosomeLengths[c].0, chromosomeLengths[c].1;
      var lside := PyRange(1, length + 1, s);
      var rside := PyRange(s, length + s, s);
      var pairs := Zip(lside, rside);
      ghost var before := emitted;
      ghost var windows := ChromRegions(chrom, length, s);
      assert |windows| == |pairs|;
      for j := 0 to |pairs|
        invariant emitted == before + windows[..j]
        invariant regionIndex == |emitted|
        invariant regions == IndexMap(emitted)
      {
        var beg, end := pairs[j].0, pairs[j].1;
        end := Min(end, length);
        var r := Region(chrom, beg, end);
        assert r == windows[j];
        IndexMapAppend(emitted, r);
        regions := regions[regionIndex := Render(r)];
        assert windows[..j + 1] == windows[..j] + [r];
        emitted := emitted + [r];
        regionIndex := regionIndex + 1;
      }
      assert windows[..|pairs|] == windows;
      assert chromosomeLengths[..c + 1][..c] == chromosomeLengths[..c];
    }
    assert chromosomeLengths[..|chromosomeLengths|] == chromosomeLengths;
  }

  // ---------------------------------------------------------------------
  // Chromosome lengths from the alignment header

  /** The names of an ordered length map, in order. */
  function Names(d: seq<(string, nat)>): seq<string> {
    seq(|d|, i requires 0 <= i < |d| => d[i].0)
  }

  predicate DistinctNames(d: seq<(string, nat)>) {
    forall i, j :: 0 <= i < j < |d| ==> d[i].0 != d[j].0
  }

  /** The position of the entry named `k`, if there is one. */
  function FindName(d: seq<(string, nat)>, k: string): (r: Option<nat>)
    ensures r.Some? ==> r.value < |d| && d[r.value].0 == k
    ensures r.None? ==> k !in Names(d)
    decreases |d|
  {
    if |d| == 0 then None
    else if d[|d| - 1].0 == k then Some(|d| - 1)
    else
      assert Names(d) == Names(d[..|d| - 1]) + [d[|d| - 1].0];
      FindName(d[..|d| - 1], k)
  }

  /**
   * `OrderedDict.__setitem__`: an existing name keeps its place and takes
   * the new length; a new name is appended.
   */
  function Put(d: seq<(string, nat)>, k: string, v: nat): (r: seq<(string, nat)>)
    ensures DistinctNames(d) ==> DistinctNames(r)
    ensures forall x :: x in Names(r) <==> x in Names(d) || x == k
    ensures k !in Names(d) ==> r == d + [(k, v)]
    ensures DistinctNames(d) && k in Names(d) ==>
      |r| == |d| && forall j :: 0 <= j < |d| ==> r[j] == (if d[j].0 == k then (k, v) else d[j])
  {
    match FindName(d, k)
    case Some(i) =>
      var r := d[i := (k, v)];
      assert Names(d)[i] == k;
      assert forall x :: x in Names(r) <==> x in Names(d) by {
        forall x ensures x in Names(r) ==> x in Names(d) {
          if x in Names(r) {
            var j :| 0 <= j < |r| && Names(r)[j] == x;
            assert Names(d)[if j == i then i else j] == x;
          }
        }
        forall x ensures x in Names(d) ==> x in Names(r) {
          if x in Names(d) {
            var j :| 0 <= j < |d| && Names(d)[j] == x;
            assert Names(r)[if j == i then i else j] == x;
          }
        }
      }
      r
    case None =>
      var r := d + [(k, v)];
      assert Names(r) == Names(d) + [k];
      assert forall j :: 0 <= j < |d| ==> d[j].0 == Names(d)[j];
      r
  }

  /** The filter loop of `load_bam_chromosome_lengths`, over the zipped header entries. */
  function Collect(header: seq<(string, nat)>, wanted: seq<string>): seq<(string, nat)>
    decreases |header|
  {
    if |header| == 0 then []
    else
      var d := Collect(header[..|header| - 1], wanted);
      var e := header[|header| - 1];
      if e.0 in wanted then Put(d, e.0, e.1) else d
  }

  /** `load_bam_chromosome_lengths` as a value; without a filter the reference names themselves are the filter. */
  function ChromosomeLengths(references: seq<string>, lengths: seq<nat>, chromosomes: Option<seq<string>>): seq<(string, nat)> {
    Collect(Zip(references, lengths), chromosomes.GetOr(references))
  }

  /** The header entries whose names are wanted, in header order. */
  function Select(header: seq<(string, nat)>, wanted: seq<string>): (r: seq<(string, nat)>)
    ensures forall e :: e in r <==> e in header && e.0 in wanted
    decreases |header|
  {
    if |header| == 0 then []
    else
      var init := header[..|header| - 1];
      var e := header[|header| - 1];
      assert header == init + [e];
      Select(init, wanted) + (if e.0 in wanted then [e] else [])
  }

  /**
   * The loaded map never repeats a name, and holds exactly the header
   * names that are wanted: requested names the header lacks are absent.
   */
  lemma {:induction false} CollectNames(header: seq<(string, nat)>, wanted: seq<string>)
    ensures DistinctNames(Collect(header, wanted))
    ensures forall x :: x in Names(Collect(header, wanted)) <==> x in Names(header) && x in wanted
    decreases |header|
  {
    if |header| > 0 {
      var init := header[..|header| - 1];
      CollectNames(init, wanted);
      assert Names(header) == Names(init) + [header[|header| - 1].0];
    }
  }

  /** With distinct header names the loaded map is the wanted header entries in header order. */
  lemma {:induction false} CollectDistinctHeader(header: seq<(string, nat)>, wanted: seq<string>)
    requires DistinctNames(header)
    ensures Collect(header, wanted) == Select(header, wanted)
    decreases |header|
  {
    if |header| > 0 {
      var init := header[..|header| - 1];
      var e := header[|header| - 1];
      CollectDistinctHeader(init, wanted);
      CollectNames(init, wanted);
      assert e.0 !in Names(init) by {
        forall j | 0 <= j < |init| ensures Names(init)[j] != e.0 {
          assert header[j].0 != header[|header| - 1].0;
        }
      }
    }
  }

  /** When every entry is wanted, selecting keeps the whole header. */
  lemma {:induction false} SelectAll(header: seq<(string, nat)>, wanted: seq<string>)
    requires forall i :: 0 <= i < |header| ==> header[i].0 in wanted
    ensures Select(header, wanted) == header
    decreases |header|
  {
    if |header| > 0 {
      var init := header[..|header| - 1];
      var e := header[|header| - 1];
      forall i | 0 <= i < |init| ensures init[i].0 in wanted {
        assert init[i] == header[i];
      }
      SelectAll(init, wanted);
      assert e.0 in wanted;
      assert Select(header, wanted) == Select(init, wanted) + [e];
      assert init + [e] == header;
    }
  }

  /**
   * `load_bam_chromosome_lengths` keeps header order.  Without a filter it
   * keeps every reference; with one it keeps exactly the wanted entries.
   */
  lemma LoadedLengths(references: seq<string>, lengths: seq<nat>, chromosomes: Option<seq<string>>)
    requires |references| == |lengths| && DistinctNames(Zip(references, lengths))
    ensures chromosomes.None? ==> ChromosomeLengths(references, lengths, chromosomes) == Zip(references, lengths)
    ensures chromosomes.Some? ==> ChromosomeLengths(references, lengths, chromosomes) == Select(Zip(references, lengths), chromosomes.value)
  {
    var header := Zip(references, lengths);
    CollectDistinctHeader(header, chromosomes.GetOr(references));
    if chromosomes.None? {
      SelectAll(header, references);
    }
  }

  lemma {:induction false} CollectNoneWanted(header: seq<(string, nat)>, wanted: seq<string>)
    requires forall i :: 0 <= i < |header| ==> header[i].0 !in wanted
    ensures Collect(header, wanted) == []
    decreases |header|
  {
    if |header| > 0 {
      CollectNoneWanted(header[..|header| - 1], wanted);
    }
  }

  /** A filter that matches no reference gives an empty length map and an empty region map, not an error. */
  lemma NoMatchingChromosome(references: seq<string>, lengths: seq<nat>, filter: seq<string>, splitSize: Option<nat>)
    requires splitSize.Some? ==> splitSize.value > 0
    requires forall i :: 0 <= i < |references| ==> references[i] !in filter
    ensures ChromosomeLengths(references, lengths, Some(filter)) == []
    ensures Regions(ChromosomeLengths(references, lengths, Some(filter)), splitSize) == map[]
  {
    CollectNoneWanted(Zip(references, lengths), filter);
  }

  /**
   * Without a split size and without a filter, a header with distinct names
   * gives one entry per reference: index i holds the i-th reference name.
   */
  lemma UnsplitBamRegions(references: seq<string>, lengths: seq<nat>)
    requires |references| == |lengths| && DistinctNames(Zip(references, lengths))
    ensures forall k: nat :: k in Regions(ChromosomeLengths(references, lengths, None), None) <==> k < |references|
    ensures forall k :: 0 <= k < |references| ==> Regions(ChromosomeLengths(references, lengths, None), None)[k] == references[k]
  {
    LoadedLengths(references, lengths, None);
  }

  /** `load_bam_chromosome_lengths`: walks the zipped header and fills an ordered map (genome.py:35-52). */
  method LoadBamChromosomeLengths(references: seq<string>, lengths: seq<nat>, chromosomes: Option<seq<string>>)
    returns (chromosomeLengths: seq<(string, nat)>)
    ensures chromosomeLengths == ChromosomeLengths(references, lengths, chromosomes)
  {
    chromosomeLengths := [];
    var wanted := if chromosomes.None? then references else chromosomes.value;
    var header := Zip(references, lengths);
    for i := 0 to |header|
      invariant chromosomeLengths == Collect(header[..i], wanted)
    {
      assert header[..i + 1][..i] == header[..i];
      var chrom, length := header[i].0, header[i].1;
      if chrom !in wanted {
        continue;
      }
      chromosomeLengths := Put(chromosomeLengths, chrom, length);
    }
    assert header[..|header|] == header;
  }

  /** `get_bam_regions`: the region map of the loaded chromosome lengths (genome.py:29-32). */
  method GetBamRegions(references: seq<string>, lengths: seq<nat>, splitSize: Option<nat>, chromosomes: Option<seq<string>>)
    returns (regions: map<nat, string>)
    requires splitSize.Some? ==> splitSize.value > 0
    ensures regions == Regions(ChromosomeLengths(references, lengths, chromosomes), splitSize)
  {
    var chromosomeLengths := LoadBamChromosomeLengths(references, lengths, chromosomes);
    regions := GetRegions(chromosomeLengths, splitSize);
  }
}
