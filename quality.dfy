/**
 * Inference of the IJG encoder quality factor from a quantization table
 * (detect_quality_table and detect_quality in main.c).
 *
 * The base tables are Tables K.1 (luminance) and K.2 (chrominance) of Annex K of
 * ITU-T T.81 / ISO/IEC 10918-1. The percentage scaling and the rounding and
 * clamping to [1, 255] follow the quality scaling of IJG libjpeg 6b with
 * baseline compatibility forced on.
 */
module Quality {
  import opened Wrappers
  import opened Arithmetic

  /** Number of coefficients of an 8x8 table (DCTSIZE2). */
  const DctSize2: nat := 64

  /** Number of quantization-table slots of a decoder (NUM_QUANT_TBLS). */
  const NumQuantTables: nat := 4

  /** Marker for "no quality factor found". */
  const Undetermined: int := -1

  /** Table K.1, in natural (row-major) order, one row of the 8x8 table per line. */
  const StdLuminanceQuantTbl: seq<int> :=
    [16,  11,  10,  16,  24,  40,  51,  61] +
    [12,  12,  14,  19,  26,  58,  60,  55] +
    [14,  13,  16,  24,  40,  57,  69,  56] +
    [14,  17,  22,  29,  51,  87,  80,  62] +
    [18,  22,  37,  56,  68, 109, 103,  77] +
    [24,  35,  55,  64,  81, 104, 113,  92] +
    [49,  64,  78,  87, 103, 121, 120, 101] +
    [72,  92,  95,  98, 112, 100, 103,  99]

  /** Table K.2, in natural (row-major) order, one row of the 8x8 table per line. */
  const StdChrominanceQuantTbl: seq<int> :=
    [17,  18,  24,  47,  99,  99,  99,  99] +
    [18,  21,  26,  66,  99,  99,  99,  99] +
    [24,  26,  56,  99,  99,  99,  99,  99] +
    [47,  66,  99,  99,  99,  99,  99,  99] +
    [99,  99,  99,  99,  99,  99,  99,  99] +
    [99,  99,  99,  99,  99,  99,  99,  99] +
    [99,  99,  99,  99,  99,  99,  99,  99] +
    [99,  99,  99,  99,  99,  99,  99,  99]

  /**
   * A base table the search may scale: 64 entries, each small enough that the
   * unsigned product `base[i] * scaling + 50` of the source cannot wrap around
   * 32 bits, so unbounded integers compute exactly what the C code computes.
   */
  predicate IsBaseTable(base: seq<int>) {
    |base| == DctSize2 &&
    forall i :: 0 <= i < |base| ==> 0 <= base[i] && base[i] * 5000 + 50 < 0x1_0000_0000
  }

  /** The percentage a quality factor scales the base table by. */
  function PercentageScaling(quality: int): (scaling: int)
    requires 1 <= quality <= 100
    ensures 0 <= scaling <= 5000
    ensures scaling == 0 <==> quality == 100
    ensures quality < 50 ==> scaling > 100
    ensures quality >= 50 ==> scaling <= 100
  {
    if quality < 50 then 5000 / quality else 200 - quality * 2
  }

  /** One entry of the table the encoder emits at `quality`: scaled, rounded half up, clamped. */
  function ExpectedValue(base: int, quality: int): (value: int)
    requires 0 <= base && 1 <= quality <= 100
    ensures 1 <= value <= 255
    ensures quality == 100 ==> value == 1
  {
    var scaled := (base * PercentageScaling(quality) + 50) / 100;
    if scaled <= 0 then 1 else if scaled > 255 then 255 else scaled
  }

  /** The whole table the encoder emits from `base` at `quality`. */
  function Generated(base: seq<int>, quality: int): (table: seq<int>)
    requires IsBaseTable(base) && 1 <= quality <= 100
    ensures |table| == DctSize2
    ensures forall i :: 0 <= i < |table| ==> 1 <= table[i] <= 255
  {
    seq(|base|, i requires 0 <= i < |base| => ExpectedValue(base[i], quality))
  }

  /** `quality` reproduces the observed table exactly, entry by entry. */
  predicate Matches(table: seq<int>, base: seq<int>, quality: int)
    requires IsBaseTable(base) && 1 <= quality <= 100
  {
    table == Generated(base, quality)
  }

  /** `quality` is the smallest factor in [1, 100] that reproduces the table. */
  predicate IsLeastMatch(table: seq<int>, base: seq<int>, quality: int)
    requires IsBaseTable(base)
  {
    1 <= quality <= 100 && Matches(table, base, quality) &&
    forall q :: 1 <= q < quality ==> !Matches(table, base, q)
  }

  /** The first factor in [from, 100] that reproduces the table, or Undetermined. */
  function FirstMatchFrom(table: seq<int>, base: seq<int>, from: int): (quality: int)
    requires IsBaseTable(base) && 1 <= from <= 101
    ensures quality == Undetermined || (from <= quality <= 100 && Matches(table, base, quality))
    ensures forall q :: from <= q <= 100 && (quality == Undetermined || q < quality) ==> !Matches(table, base, q)
    decreases 101 - from
  {
    if from > 100 then Undetermined
    else if Matches(table, base, from) then from
    else FirstMatchFrom(table, base, from + 1)
  }

  /** The quality detect_quality_table reports: the least reproducing factor, or Undetermined. */
  function QualityOf(table: seq<int>, base: seq<int>): (quality: int)
    requires IsBaseTable(base)
    ensures quality == Undetermined <==> forall q :: 1 <= q <= 100 ==> !Matches(table, base, q)
    ensures quality != Undetermined ==> IsLeastMatch(table, base, quality)
    ensures forall q :: IsLeastMatch(table, base, q) ==> quality == q
  {
    FirstMatchFrom(table, base, 1)
  }

  /**
   * The inner loop of detect_quality_table: compare the entries generated at
   * `quality` with the observed ones, stopping at the first mismatch.
   */
  method MatchesQuality(table: seq<int>, base: seq<int>, quality: int) returns (foundQuality: bool)
    requires |table| == DctSize2 && IsBaseTable(base) && 1 <= quality <= 100
    ensures foundQuality <==> Matches(table, base, quality)
  {
    var percentageScaling := PercentageScaling(quality);
    foundQuality := true;
    var i := 0;
    while i < DctSize2
      invariant 0 <= i <= DctSize2
      invariant foundQuality
      invariant forall j :: 0 <= j < i ==> table[j] == Generated(base, quality)[j]
    {
      var expectedValue := (base[i] * percentageScaling + 50) / 100;
      if expectedValue <= 0 { expectedValue := 1; }
      if expectedValue > 255 { expectedValue := 255; }
      assert expectedValue == Generated(base, quality)[i];
      if table[i] != expectedValue {
        foundQuality := false;
        break;
      }
      i := i + 1;
    }
    if foundQuality {
      assert table == Generated(base, quality);
    }
  }

  /**
   * detect_quality_table: try every quality from 1 to 100 and report the
   * first one whose generated table equals the observed one.
   */
  method DetectQualityTable(table: seq<int>, base: seq<int>) returns (quality: int)
    requires |table| == DctSize2 && IsBaseTable(base)
    ensures quality == QualityOf(table, base)
  {
    quality := 1;
    while quality <= 100
      invariant 1 <= quality <= 101
      invariant FirstMatchFrom(table, base, quality) == QualityOf(table, base)
    {
      var foundQuality := MatchesQuality(table, base, quality);
      if foundQuality {
        return;
      }
      quality := quality + 1;
    }
    quality := Undetermined;
  }

  /** Both standard tables are valid base tables. */
  lemma StandardTablesAreBaseTables()
    ensures IsBaseTable(StdLuminanceQuantTbl) && IsBaseTable(StdChrominanceQuantTbl)
  {
  }

  /** Every present slot holds a 64-entry table (quantval is UINT16[DCTSIZE2]). */
  predicate SlotsWellFormed(quantTblPtrs: seq<Option<seq<int>>>) {
    |quantTblPtrs| == NumQuantTables &&
    forall k :: 0 <= k < |quantTblPtrs| && quantTblPtrs[k].Some? ==> |quantTblPtrs[k].value| == DctSize2
  }

  /**
   * detect_quality: the quality of the image is accepted only when slot 0
   * (luminance) and slot 1 (chrominance) are present, both resolve to the
   * same least factor, and slot 2 is empty.
   */
  function DetectQuality(quantTblPtrs: seq<Option<seq<int>>>): (quality: int)
    requires SlotsWellFormed(quantTblPtrs)
    ensures quality == Undetermined || 1 <= quality <= 100
  {
    StandardTablesAreBaseTables();
    if quantTblPtrs[0].None? then Undetermined
    else
      var quality := QualityOf(quantTblPtrs[0].value, StdLuminanceQuantTbl);
      if quality == Undetermined then Undetermined
      else if quantTblPtrs[1].None? then Undetermined
      else
        var tableQuality := QualityOf(quantTblPtrs[1].value, StdChrominanceQuantTbl);
        if tableQuality != quality then Undetermined
        else if quantTblPtrs[2].Some? then Undetermined
        else quality
  }

  /**
   * detect_quality accepts the factor `quality` exactly when slot 0 and slot 1
   * are present, `quality` is the least factor reproducing each of them from
   * its own standard table, and slot 2 is empty. A failed chrominance search
   * counts as a mismatch.
   */
  lemma DetectQualityAccepts(quantTblPtrs: seq<Option<seq<int>>>, quality: int)
    requires SlotsWellFormed(quantTblPtrs) && 1 <= quality <= 100
    ensures IsBaseTable(StdLuminanceQuantTbl) && IsBaseTable(StdChrominanceQuantTbl)
    ensures DetectQuality(quantTblPtrs) == quality <==>
      quantTblPtrs[0].Some? && quantTblPtrs[1].Some? && quantTblPtrs[2].None? &&
      IsLeastMatch(quantTblPtrs[0].value, StdLuminanceQuantTbl, quality) &&
      IsLeastMatch(quantTblPtrs[1].value, StdChrominanceQuantTbl, quality)
  {
    StandardTablesAreBaseTables();
  }

  /** The slots of an image encoded with the standard tables at `quality`: slots 0 and 1 filled. */
  function StandardSlots(quality: int): (slots: seq<Option<seq<int>>>)
    requires 1 <= quality <= 100
    ensures SlotsWellFormed(slots)
  {
    StandardTablesAreBaseTables();
    [Some(Generated(StdLuminanceQuantTbl, quality)), Some(Generated(StdChrominanceQuantTbl, quality)), None, None]
  }

  /**
   * Round trip: the search run on a table the encoder generated at `quality`
   * reports a factor no larger than `quality` that generates the same table.
   */
  lemma GeneratedTableRoundTrip(base: seq<int>, quality: int)
    requires IsBaseTable(base) && 1 <= quality <= 100
    ensures var found := QualityOf(Generated(base, quality), base);
      1 <= found <= quality && Generated(base, found) == Generated(base, quality)
  {
    assert Matches(Generated(base, quality), base, quality);
  }

  /** An observed entry outside [1, 255] can never be generated, so the search fails. */
  lemma OutOfRangeEntryUndetermined(table: seq<int>, base: seq<int>, i: int)
    requires IsBaseTable(base) && 0 <= i < |table|
    requires table[i] < 1 || table[i] > 255
    ensures QualityOf(table, base) == Undetermined
  {
  }

  /**
   * Chrominance qualities 1, 2 and 3 all generate the all-255 table, so the
   * search reports 1 for each of them.
   */
  lemma ChrominanceLowQualitiesCollapse(quality: int)
    requires 1 <= quality <= 3
    ensures IsBaseTable(StdChrominanceQuantTbl)
    ensures Generated(StdChrominanceQuantTbl, quality) == Generated(StdChrominanceQuantTbl, 1)
    ensures forall i :: 0 <= i < DctSize2 ==> Generated(StdChrominanceQuantTbl, quality)[i] == 255
    ensures QualityOf(Generated(StdChrominanceQuantTbl, quality), StdChrominanceQuantTbl) == 1
  {
    StandardTablesAreBaseTables();
    var base := StdChrominanceQuantTbl;
    assert forall i :: 0 <= i < |base| ==> 17 <= base[i];
    forall i | 0 <= i < DctSize2
      ensures Generated(base, quality)[i] == 255 && Generated(base, 1)[i] == 255
    {
      assert PercentageScaling(quality) >= 1666;
      assert base[i] * PercentageScaling(quality) >= 17 * 1666;
    }
    assert Matches(Generated(base, quality), base, 1);
  }

  /**
   * Luminance qualities 2 and 3 are identified exactly; chrominance resolves to
   * 1 there, so a genuine standard pair at quality 2 or 3 is rejected.
   */
  lemma StandardPairAtLowQualityRejected(quality: int)
    requires quality == 2 || quality == 3
    ensures QualityOf(Generated(StdLuminanceQuantTbl, quality), StdLuminanceQuantTbl) == quality
    ensures DetectQuality(StandardSlots(quality)) == Undetermined
  {
    StandardTablesAreBaseTables();
    var base := StdLuminanceQuantTbl;
    assert base[2] == 10;
    forall q | 1 <= q < quality
      ensures !Matches(Generated(base, quality), base, q)
    {
      assert Generated(base, q)[2] != Generated(base, quality)[2];
    }
    assert Matches(Generated(base, quality), base, quality);
    ChrominanceLowQualitiesCollapse(quality);
  }

  /** Below quality 50 the percentage exceeds twice the quality by a wide margin. */
  lemma LowQualityScalingAtLeast(quality: int)
    requires 1 <= quality < 50
    ensures 5000 / quality >= 102
  {
    DivAtLeast(5000, quality, 102);
  }

  /** Distinct qualities scale by percentages at least 2 apart, larger for the lower quality. */
  lemma ScalingGap(lower: int, higher: int)
    requires 1 <= lower < higher <= 100
    ensures PercentageScaling(lower) >= PercentageScaling(higher) + 2
  {
    if lower < 50 {
      LowQualityScalingAtLeast(lower);
      if higher < 50 {
        var b := 5000 / higher;
        LowQualityScalingAtLeast(higher);
        assert b * higher <= 5000;
        MulMonotone(b + 2, lower, higher - 1);
        assert (b + 2) * (higher - 1) == b * higher + 2 * higher - b - 2;
        DivAtLeast(5000, lower, b + 2);
      }
    }
  }

  /** Below quality 19 one quality step lowers the percentage by at least 13. */
  lemma LowScalingStep(quality: int)
    requires 1 <= quality < 19
    ensures PercentageScaling(quality) >= PercentageScaling(quality + 1) + 13
  {
    var b := 5000 / (quality + 1);
    MulMonotone(quality + 1, quality, 18);
    MulMonotone(18, quality + 1, 19);
    DivAtLeast(5000, quality + 1, 13 * quality);
    assert b * (quality + 1) <= 5000;
    assert (b + 13) * quality == b * (quality + 1) - b + 13 * quality;
    DivAtLeast(5000, quality, b + 13);
  }

  /** Up to quality 19, distinct qualities scale by percentages at least 13 apart. */
  lemma LowScalingGap(lower: int, higher: int)
    requires 1 <= lower < higher <= 19
    ensures PercentageScaling(lower) >= PercentageScaling(higher) + 13
  {
    LowScalingStep(higher - 1);
    if lower < higher - 1 {
      ScalingGap(lower, higher - 1);
    }
  }

  /**
   * Up to quality 19, a base entry of at least 8 whose scaled value at the
   * higher quality stays below the 255 clamp takes different values at any
   * two qualities.
   */
  lemma LowQualityEntriesDiffer(entry: int, lower: int, higher: int)
    requires 8 <= entry && 1 <= lower < higher <= 19
    requires entry * PercentageScaling(higher) + 50 < 25500
    ensures ExpectedValue(entry, lower) > ExpectedValue(entry, higher)
  {
    LowScalingGap(lower, higher);
    var s, t := PercentageScaling(lower), PercentageScaling(higher);
    MulMonotone(entry, t + 13, s);
    MulMonotone(t, 8, entry);
    var y := (entry * t + 50) / 100;
    DivAtMost(entry * t + 50, 100, 254);
    DivAtLeast(entry * t + 50, 100, 1);
    assert y * 100 <= entry * t + 50;
    DivAtLeast(entry * s + 50, 100, y + 1);
  }

  /**
   * A standard table generated at `quality` is identified exactly, except
   * the chrominance table at qualities 2 and 3. From 20 on the last entry,
   * 99 in both tables, tells the qualities apart; below 20 entry 2 of the
   * luminance table (10) and entry 0 of the chrominance table (17) do.
   */
  lemma StandardTableRoundTripExact(base: seq<int>, quality: int)
    requires base == StdLuminanceQuantTbl || base == StdChrominanceQuantTbl
    requires 1 <= quality <= 100
    requires base == StdChrominanceQuantTbl ==> quality != 2 && quality != 3
    ensures IsBaseTable(base) && QualityOf(Generated(base, quality), base) == quality
  {
    StandardTablesAreBaseTables();
    if quality >= 20 {
      assert base[63] == 99;
      assert PercentageScaling(quality) <= 250 by {
        if quality < 50 { DivAtMost(5000, quality, 250); }
      }
      forall q | 1 <= q < quality
        ensures !Matches(Generated(base, quality), base, q)
      {
        ScalingGap(q, quality);
        var s, t := PercentageScaling(q), PercentageScaling(quality);
        assert 99 * s >= 99 * t + 198;
        assert Generated(base, q)[63] != Generated(base, quality)[63];
      }
    } else if quality > 1 {
      var i := if base == StdLuminanceQuantTbl then 2 else 0;
      if base == StdLuminanceQuantTbl {
        assert base[i] == 10;
        MulMonotone(2501, 2, quality);
        DivAtMost(5000, quality, 2500);
      } else {
        assert base[i] == 17;
        MulMonotone(1251, 4, quality);
        DivAtMost(5000, quality, 1250);
      }
      forall q | 1 <= q < quality
        ensures !Matches(Generated(base, quality), base, q)
      {
        LowQualityEntriesDiffer(base[i], q, quality);
        assert Generated(base, q)[i] != Generated(base, quality)[i];
      }
    }
    assert Matches(Generated(base, quality), base, quality);
  }

  /**
   * A genuine standard pair generated at `quality` is detected as that
   * quality exactly when the quality is neither 2 nor 3.
   */
  lemma StandardPairDetected(quality: int)
    requires 1 <= quality <= 100
    ensures DetectQuality(StandardSlots(quality)) == quality <==> quality != 2 && quality != 3
  {
    if quality == 2 || quality == 3 {
      StandardPairAtLowQualityRejected(quality);
    } else {
      StandardTableRoundTripExact(StdLuminanceQuantTbl, quality);
      StandardTableRoundTripExact(StdChrominanceQuantTbl, quality);
      var slots := StandardSlots(quality);
      assert slots[0] == Some(Generated(StdLuminanceQuantTbl, quality));
      assert slots[1] == Some(Generated(StdChrominanceQuantTbl, quality));
      assert slots[2] == None;
    }
  }
}
