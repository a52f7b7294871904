/**
 * The LSB-insensitive comparison of one pair of DCT blocks (the histogram
 * loops of check_invariant in main.c). Each coefficient goes into bin
 * 128 + (c >> 1); the two 256-bin histograms must agree everywhere.
 */
module Histogram {

  /** Coefficients per block (DCTSIZE2). */
  const BlockSize: nat := 64

  /** Bins per histogram. */
  const HistogramSize: nat := 256

  /**
   * `c >> 1` on a signed JCOEF: the shift is arithmetic, so it rounds toward
   * minus infinity (Dafny's `/` by a positive divisor does the same).
   */
  function ShiftRight1(c: int): (s: int)
    ensures 2 * s <= c <= 2 * s + 1
  {
    c / 2
  }

  /** The histogram index of a coefficient; it is a valid index just for c in [-256, 255]. */
  function Bin(c: int): (b: int)
    ensures 0 <= b < HistogramSize <==> -256 <= c <= 255
  {
    128 + ShiftRight1(c)
  }

  /** The coefficient with its lowest two's-complement bit flipped. */
  function FlipLsb(c: int): (d: int)
    ensures d == c + 1 || d == c - 1
    ensures d % 2 != c % 2
    ensures Bin(d) == Bin(c)
  {
    if c % 2 == 0 then c + 1 else c - 1
  }

  /** The shifted coefficients of a block, position by position. */
  function Halves(block: seq<int>): seq<int> {
    seq(|block|, j requires 0 <= j < |block| => ShiftRight1(block[j]))
  }

  /** Every coefficient of the block has a valid histogram index (the source does not check this). */
  predicate InBinRange(block: seq<int>) {
    forall j :: 0 <= j < |block| ==> -256 <= block[j] <= 255
  }

  /** A pair of blocks passes when their shifted coefficients agree as multisets. */
  predicate BlockPasses(block1: seq<int>, block2: seq<int>) {
    multiset(Halves(block1)) == multiset(Halves(block2))
  }

  lemma HalvesAppend(s: seq<int>, t: seq<int>)
    ensures Halves(s + t) == Halves(s) + Halves(t)
  {
  }

  /** The 256 bin counts of a block: bin k counts the coefficients whose shift is k - 128. */
  function Histogram(block: seq<int>): (h: seq<nat>)
    ensures |h| == HistogramSize
  {
    seq(HistogramSize, k => multiset(Halves(block))[k - 128])
  }

  /** The empty prefix of a block has an all-zero histogram. */
  lemma EmptyHistogram(block: seq<int>)
    ensures Histogram(block[..0]) == seq(HistogramSize, _ => 0)
  {
    assert block[..0] == [];
  }

  /** Adding one coefficient to a prefix increments exactly its own bin. */
  lemma HistogramStep(block: seq<int>, i: nat)
    requires i < |block| && -256 <= block[i] <= 255
    ensures Histogram(block[..i + 1]) ==
      Histogram(block[..i])[Bin(block[i]) := Histogram(block[..i])[Bin(block[i])] + 1]
  {
    assert block[..i + 1] == block[..i] + [block[i]];
    HalvesAppend(block[..i], [block[i]]);
  }

  /** For blocks within the bin range, equal histograms mean exactly a passing pair. */
  lemma HistogramsDecide(block1: seq<int>, block2: seq<int>)
    requires InBinRange(block1) && InBinRange(block2)
    ensures Histogram(block1) == Histogram(block2) <==> BlockPasses(block1, block2)
  {
    var m1, m2 := multiset(Halves(block1)), multiset(Halves(block2));
    if Histogram(block1) == Histogram(block2) {
      forall x
        ensures m1[x] == m2[x]
      {
        if -128 <= x < 128 {
          assert Histogram(block1)[x + 128] == Histogram(block2)[x + 128];
        } else {
          assert x !in Halves(block1) && x !in Halves(block2);
        }
      }
      assert m1 == m2;
    }
  }

  /** One histogram increment: the bin of `c` goes up by one, nothing else changes. */
  method AddCoefficient(histogram: array<nat>, c: int)
    requires histogram.Length == HistogramSize && -256 <= c <= 255
    modifies histogram
    ensures histogram[..] == old(histogram[..])[Bin(c) := old(histogram[Bin(c)]) + 1]
  {
    histogram[Bin(c)] := histogram[Bin(c)] + 1;
  }

  /** The fill loop: both histograms, zeroed, receive the 64 coefficients of their block. */
  method FillHistograms(histogram1: array<nat>, histogram2: array<nat>, block1: seq<int>, block2: seq<int>)
    requires histogram1.Length == HistogramSize && histogram2.Length == HistogramSize && histogram1 != histogram2
    requires |block1| == BlockSize && |block2| == BlockSize
    requires InBinRange(block1) && InBinRange(block2)
    requires histogram1[..] == seq(HistogramSize, _ => 0) == histogram2[..]
    modifies histogram1, histogram2
    ensures histogram1[..] == Histogram(block1) && histogram2[..] == Histogram(block2)
  {
    EmptyHistogram(block1);
    EmptyHistogram(block2);
    for i := 0 to BlockSize
      invariant histogram1[..] == Histogram(block1[..i])
      invariant histogram2[..] == Histogram(block2[..i])
    {
      HistogramStep(block1, i);
      HistogramStep(block2, i);
      AddCoefficient(histogram1, block1[i]);
      AddCoefficient(histogram2, block2[i]);
    }
    assert block1[..BlockSize] == block1 && block2[..BlockSize] == block2;
  }

  /**
   * Fill one histogram per block, 64 increments each, then compare the 256
   * bins and give up at the first that differs.
   */
  method BlocksMatch(block1: seq<int>, block2: seq<int>) returns (ok: bool)
    requires |block1| == BlockSize && |block2| == BlockSize
    requires InBinRange(block1) && InBinRange(block2)
    ensures ok <==> BlockPasses(block1, block2)
  {
    var histogram1 := new nat[HistogramSize](_ => 0);
    var histogram2 := new nat[HistogramSize](_ => 0);
    assert histogram1[..] == seq(HistogramSize, _ => 0) == histogram2[..];
    FillHistograms(histogram1, histogram2, block1, block2);
    HistogramsDecide(block1, block2);
    ok := SameCounts(histogram1, histogram2);
  }

  /** The compare loop: the two histograms agree bin by bin, giving up at the first difference. */
  method SameCounts(histogram1: array<nat>, histogram2: array<nat>) returns (same: bool)
    requires histogram1.Length == HistogramSize && histogram2.Length == HistogramSize
    ensures same <==> histogram1[..] == histogram2[..]
  {
    for k := 0 to HistogramSize
      invariant forall j :: 0 <= j < k ==> histogram1[j] == histogram2[j]
    {
      if histogram1[k] != histogram2[k] {
        return false;
      }
    }
    assert histogram1[..] == histogram2[..];
    return true;
  }

  /** Flipping any selection of coefficient LSBs keeps a block passing against the original. */
  lemma LsbFlipsPass(block1: seq<int>, block2: seq<int>)
    requires |block1| == |block2|
    requires forall j :: 0 <= j < |block1| ==> block2[j] == block1[j] || block2[j] == FlipLsb(block1[j])
    ensures BlockPasses(block1, block2)
  {
    assert Halves(block1) == Halves(block2);
  }

  lemma MultisetHalvesAppend(s: seq<int>, t: seq<int>)
    ensures multiset(Halves(s + t)) == multiset(Halves(s)) + multiset(Halves(t))
  {
    HalvesAppend(s, t);
  }

  /** Taking the element at `j` out of a sequence takes it out of its multiset, before and after shifting. */
  lemma RemoveAt(s: seq<int>, j: nat)
    requires j < |s|
    ensures multiset(s) == multiset(s[..j] + s[j + 1..]) + multiset{s[j]}
    ensures multiset(Halves(s)) == multiset(Halves(s[..j] + s[j + 1..])) + multiset{ShiftRight1(s[j])}
  {
    var before, after := s[..j], s[j + 1..];
    assert s == (before + [s[j]]) + after;
    MultisetHalvesAppend(before + [s[j]], after);
    MultisetHalvesAppend(before, [s[j]]);
    MultisetHalvesAppend(before, after);
  }

  /** The comparison only sees the multiset of coefficients: reordering a block keeps it passing. */
  lemma {:induction false} PermutationPasses(block1: seq<int>, block2: seq<int>)
    requires multiset(block1) == multiset(block2)
    ensures BlockPasses(block1, block2)
    decreases |block1|
  {
    if block1 == [] {
      assert |multiset(block2)| == 0;
    } else {
      var x := block1[0];
      assert x in multiset(block2);
      var j :| 0 <= j < |block2| && block2[j] == x;
      var rest2 := block2[..j] + block2[j + 1..];
      RemoveAt(block1, 0);
      RemoveAt(block2, j);
      assert block1[..0] + block1[1..] == block1[1..];
      assert multiset(block1[1..]) == multiset(block1) - multiset{x};
      assert multiset(rest2) == multiset(block2) - multiset{x};
      PermutationPasses(block1[1..], rest2);
    }
  }
}
