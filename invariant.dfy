/**
 * The structural comparison of two images (check_invariant in main.c): shape
 * guards, then an enumeration of the MCU grid given by the first chrominance
 * component, and for every component the blocks its sampling factors map into
 * that MCU, compared pairwise with the LSB-insensitive block histogram.
 */
module Invariant {
  import opened Histogram
  import opened Arithmetic

  /** The colour spaces a decoder reports (J_COLOR_SPACE of libjpeg). */
  datatype ColorSpace = Unknown | Grayscale | Rgb | YCbCr | Cmyk | Ycck

  /**
   * One component as the decoder describes it: sampling factors in the sense
   * of section A.1.1 of ITU-T T.81, the size of its block grid, and its DCT
   * blocks by block row and block column, 64 coefficients each in natural order.
   */
  datatype Component = Component(
    hSampFactor: int,
    vSampFactor: int,
    widthInBlocks: nat,
    heightInBlocks: nat,
    blocks: seq<seq<seq<int>>>)

  /** A decoded image: its JPEG colour space and its components in frame order. */
  datatype Image = Image(colorSpace: ColorSpace, components: seq<Component>)

  /** Largest sampling factor a decoder accepts (MAX_SAMP_FACTOR). */
  const MaxSampFactor: int := 4

  /** What the decoder guarantees of a component: valid sampling factors and a full block grid. */
  predicate GridWellFormed(comp: Component) {
    1 <= comp.hSampFactor <= MaxSampFactor && 1 <= comp.vSampFactor <= MaxSampFactor &&
    |comp.blocks| == comp.heightInBlocks &&
    (forall r :: 0 <= r < |comp.blocks| ==> |comp.blocks[r]| == comp.widthInBlocks) &&
    (forall r, c :: 0 <= r < |comp.blocks| && 0 <= c < |comp.blocks[r]| ==> |comp.blocks[r][c]| == BlockSize)
  }

  predicate WellFormed(img: Image) {
    forall p :: 0 <= p < |img.components| ==> GridWellFormed(img.components[p])
  }

  function Min(a: int, b: int): (m: int)
    ensures m <= a && m <= b
    ensures m == a || m == b
  {
    if a < b then a else b
  }

  /** Three components in YCbCr, sampled (2,2), (1,1), (1,1): 4:2:0. */
  predicate Is420YCbCr(img: Image) {
    |img.components| == 3 && img.colorSpace == YCbCr &&
    img.components[0].hSampFactor == 2 && img.components[0].vSampFactor == 2 &&
    img.components[1].hSampFactor == 1 && img.components[1].vSampFactor == 1 &&
    img.components[2].hSampFactor == 1 && img.components[2].vSampFactor == 1
  }

  /** Two components with the same block grid and the same sampling factors. */
  predicate SameGrid(comp1: Component, comp2: Component) {
    comp1.widthInBlocks == comp2.widthInBlocks && comp1.heightInBlocks == comp2.heightInBlocks &&
    comp1.hSampFactor == comp2.hSampFactor && comp1.vSampFactor == comp2.vSampFactor
  }

  predicate SameGeometry(img1: Image, img2: Image) {
    |img1.components| == |img2.components| &&
    forall p :: 0 <= p < |img1.components| ==> SameGrid(img1.components[p], img2.components[p])
  }

  /**
   * The guards of check_invariant, in the source's order. The sampling test
   * is made twice on the first image and never directly on the second; the
   * second image's sampling is still pinned down by the equality guards.
   */
  function ShapeGuardsPass(img1: Image, img2: Image): (pass: bool)
    ensures pass <==> Is420YCbCr(img1) && Is420YCbCr(img2) && SameGeometry(img1, img2)
  {
    if |img1.components| != 3 || img1.colorSpace != YCbCr then false
    else if |img2.components| != 3 || img2.colorSpace != YCbCr then false
    else
      var info1, info2 := img1.components, img2.components;
      if info1[0].hSampFactor != 2 || info1[0].vSampFactor != 2 ||
         info1[1].hSampFactor != 1 || info1[1].vSampFactor != 1 ||
         info1[2].hSampFactor != 1 || info1[2].vSampFactor != 1 then false
      else if info1[0].hSampFactor != 2 || info1[0].vSampFactor != 2 ||
              info1[1].hSampFactor != 1 || info1[1].vSampFactor != 1 ||
              info1[2].hSampFactor != 1 || info1[2].vSampFactor != 1 then false
      else if info1[0].widthInBlocks != info2[0].widthInBlocks ||
              info1[0].heightInBlocks != info2[0].heightInBlocks ||
              info1[1].widthInBlocks != info2[1].widthInBlocks ||
              info1[1].heightInBlocks != info2[1].heightInBlocks ||
              info1[2].widthInBlocks != info2[2].widthInBlocks ||
              info1[2].heightInBlocks != info2[2].heightInBlocks then false
      else if info1[0].hSampFactor != info2[0].hSampFactor ||
              info1[0].vSampFactor != info2[0].vSampFactor ||
              info1[1].hSampFactor != info2[1].hSampFactor ||
              info1[1].vSampFactor != info2[1].vSampFactor ||
              info1[2].hSampFactor != info2[2].hSampFactor ||
              info1[2].vSampFactor != info2[2].vSampFactor then false
      else true
  }

  /**
   * Block (r, c) of a component lies in MCU (mcuY, mcuX): the rows
   * [v*mcuY, min(H, v*(mcuY+1))) and columns [h*mcuX, min(W, h*(mcuX+1))).
   */
  predicate InMcu(comp: Component, mcuY: nat, mcuX: nat, r: int, c: int) {
    comp.vSampFactor * mcuY <= r < Min(comp.heightInBlocks, comp.vSampFactor * (mcuY + 1)) &&
    comp.hSampFactor * mcuX <= c < Min(comp.widthInBlocks, comp.hSampFactor * (mcuX + 1))
  }

  /** Every block of MCU (mcuY, mcuX) lies inside the component's block grid. */
  lemma McuBlockInGrid(comp: Component, mcuY: nat, mcuX: nat, r: int, c: int)
    requires GridWellFormed(comp) && InMcu(comp, mcuY, mcuX, r, c)
    ensures 0 <= r < |comp.blocks| && 0 <= c < |comp.blocks[r]|
  {
    assert comp.vSampFactor * mcuY >= 0 && comp.hSampFactor * mcuX >= 0;
  }

  /** Both components' blocks at (r, c) pass the histogram comparison. */
  ghost predicate PlanePasses(comp1: Component, comp2: Component, mcuY: nat, mcuX: nat)
    requires GridWellFormed(comp1) && GridWellFormed(comp2) && SameGrid(comp1, comp2)
  {
    forall r, c :: InMcu(comp1, mcuY, mcuX, r, c) ==>
      (McuBlockInGrid(comp1, mcuY, mcuX, r, c);
       BlockPasses(comp1.blocks[r][c], comp2.blocks[r][c]))
  }

  /** Both images are decoded correctly and pass the shape guards. */
  predicate Comparable(img1: Image, img2: Image) {
    WellFormed(img1) && WellFormed(img2) && ShapeGuardsPass(img1, img2)
  }

  /** All blocks of MCU (mcuY, mcuX), in all three components, pass. */
  ghost predicate McuPasses(img1: Image, img2: Image, mcuY: nat, mcuX: nat)
    requires Comparable(img1, img2)
  {
    forall p :: 0 <= p < 3 ==> PlanePasses(img1.components[p], img2.components[p], mcuY, mcuX)
  }

  /** The verdict of check_invariant: the shape guards hold and every MCU of the chroma grid passes. */
  ghost predicate InvariantHolds(img1: Image, img2: Image)
    requires WellFormed(img1) && WellFormed(img2)
  {
    ShapeGuardsPass(img1, img2) &&
    forall mcuY, mcuX :: 0 <= mcuY < img1.components[1].heightInBlocks && 0 <= mcuX < img1.components[1].widthInBlocks ==>
      McuPasses(img1, img2, mcuY, mcuX)
  }

  /** Every block pair of the MCU that precedes block (r, c) in the sub_by / sub_bx order passes. */
  ghost predicate PlanePassesBefore(comp1: Component, comp2: Component, mcuY: nat, mcuX: nat, r: int, c: int)
    requires GridWellFormed(comp1) && GridWellFormed(comp2) && SameGrid(comp1, comp2)
  {
    forall r', c' :: InMcu(comp1, mcuY, mcuX, r', c') && (r' < r || (r' == r && c' < c)) ==>
      (McuBlockInGrid(comp1, mcuY, mcuX, r', c');
       BlockPasses(comp1.blocks[r'][c'], comp2.blocks[r'][c']))
  }

  /**
   * The histogram indexing of the sub_by / sub_bx loops stays in bounds: every
   * block pair the loops reach before an early return has in-range coefficients.
   */
  ghost predicate PlaneSafe(comp1: Component, comp2: Component, mcuY: nat, mcuX: nat)
    requires GridWellFormed(comp1) && GridWellFormed(comp2) && SameGrid(comp1, comp2)
  {
    forall r, c :: InMcu(comp1, mcuY, mcuX, r, c) && PlanePassesBefore(comp1, comp2, mcuY, mcuX, r, c) ==>
      (McuBlockInGrid(comp1, mcuY, mcuX, r, c);
       InBinRange(comp1.blocks[r][c]) && InBinRange(comp2.blocks[r][c]))
  }

  /** The sub_by and sub_bx loops of check_invariant: one component's blocks of one MCU. */
  method ComparePlane(comp1: Component, comp2: Component, mcuY: nat, mcuX: nat) returns (ok: bool)
    requires GridWellFormed(comp1) && GridWellFormed(comp2) && SameGrid(comp1, comp2)
    requires PlaneSafe(comp1, comp2, mcuY, mcuX)
    ensures ok <==> PlanePasses(comp1, comp2, mcuY, mcuX)
  {
    var widthBlocks, heightBlocks := comp1.widthInBlocks, comp1.heightInBlocks;
    var hSamplingVector, vSamplingVector := comp1.hSampFactor, comp1.vSampFactor;
    var subBy := vSamplingVector * mcuY;
    while subBy < Min(heightBlocks, vSamplingVector * (mcuY + 1))
      invariant vSamplingVector * mcuY <= subBy
      invariant forall r, c :: InMcu(comp1, mcuY, mcuX, r, c) && r < subBy ==>
        (McuBlockInGrid(comp1, mcuY, mcuX, r, c);
         BlockPasses(comp1.blocks[r][c], comp2.blocks[r][c]))
      decreases heightBlocks - subBy
    {
      var subBx := hSamplingVector * mcuX;
      while subBx < Min(widthBlocks, hSamplingVector * (mcuX + 1))
        invariant hSamplingVector * mcuX <= subBx
        invariant forall r, c :: InMcu(comp1, mcuY, mcuX, r, c) && (r < subBy || (r == subBy && c < subBx)) ==>
          (McuBlockInGrid(comp1, mcuY, mcuX, r, c);
           BlockPasses(comp1.blocks[r][c], comp2.blocks[r][c]))
        decreases widthBlocks - subBx
      {
        McuBlockInGrid(comp1, mcuY, mcuX, subBy, subBx);
        assert PlanePassesBefore(comp1, comp2, mcuY, mcuX, subBy, subBx);
        var blockOk := BlocksMatch(comp1.blocks[subBy][subBx], comp2.blocks[subBy][subBx]);
        if !blockOk {
          return false;
        }
        subBx := subBx + 1;
      }
      subBy := subBy + 1;
    }
    return true;
  }

  /** The planes of an MCU are safe as far as the plane loop reaches them. */
  ghost predicate McuSafe(img1: Image, img2: Image, mcuY: nat, mcuX: nat)
    requires Comparable(img1, img2)
  {
    forall p :: (0 <= p < 3 &&
      forall p' :: 0 <= p' < p ==> PlanePasses(img1.components[p'], img2.components[p'], mcuY, mcuX)) ==>
      PlaneSafe(img1.components[p], img2.components[p], mcuY, mcuX)
  }

  /** Every MCU that precedes (mcuY, mcuX) in the by / bx order passes. */
  ghost predicate McusPassBefore(img1: Image, img2: Image, mcuY: nat, mcuX: nat)
    requires Comparable(img1, img2)
  {
    forall y: nat, x: nat :: x < img1.components[1].widthInBlocks && (y < mcuY || (y == mcuY && x < mcuX)) ==>
      McuPasses(img1, img2, y, x)
  }

  /**
   * check_invariant indexes its histograms in bounds: every MCU the by / bx
   * loops reach before an early return is safe.
   */
  ghost predicate InvariantSafe(img1: Image, img2: Image)
    requires Comparable(img1, img2)
  {
    forall mcuY: nat, mcuX: nat ::
      mcuY < img1.components[1].heightInBlocks && mcuX < img1.components[1].widthInBlocks &&
      McusPassBefore(img1, img2, mcuY, mcuX) ==>
      McuSafe(img1, img2, mcuY, mcuX)
  }

  /** The plane loop of check_invariant: all three components' blocks of one MCU. */
  method CompareMcu(img1: Image, img2: Image, mcuY: nat, mcuX: nat) returns (ok: bool)
    requires Comparable(img1, img2) && McuSafe(img1, img2, mcuY, mcuX)
    ensures ok <==> McuPasses(img1, img2, mcuY, mcuX)
  {
    for plane := 0 to 3
      invariant forall p :: 0 <= p < plane ==> PlanePasses(img1.components[p], img2.components[p], mcuY, mcuX)
    {
      var comp1, comp2 := img1.components[plane], img2.components[plane];
      var planeOk := ComparePlane(comp1, comp2, mcuY, mcuX);
      if !planeOk {
        return false;
      }
    }
    return true;
  }

  /** check_invariant on two decoded images. */
  method CheckInvariant(img1: Image, img2: Image) returns (ok: bool)
    requires WellFormed(img1) && WellFormed(img2)
    requires ShapeGuardsPass(img1, img2) ==> InvariantSafe(img1, img2)
    ensures ok <==> InvariantHolds(img1, img2)
  {
    if !ShapeGuardsPass(img1, img2) {
      return false;
    }
    var widthBlocks := img1.components[1].widthInBlocks;
    var heightBlocks := img1.components[1].heightInBlocks;
    for mcuY := 0 to heightBlocks
      invariant forall y, x :: 0 <= y < mcuY && 0 <= x < widthBlocks ==> McuPasses(img1, img2, y, x)
    {
      for mcuX := 0 to widthBlocks
        invariant forall y, x :: 0 <= y < mcuY && 0 <= x < widthBlocks ==> McuPasses(img1, img2, y, x)
        invariant forall x :: 0 <= x < mcuX ==> McuPasses(img1, img2, mcuY, x)
      {
        assert McusPassBefore(img1, img2, mcuY, mcuX);
        var mcuOk := CompareMcu(img1, img2, mcuY, mcuX);
        if !mcuOk {
          return false;
        }
      }
    }
    return true;
  }

  /** Along one axis, a block index belongs to at most one MCU index. */
  lemma AxisMcuUnique(factor: int, mcu1: nat, mcu2: nat, index: int)
    requires 1 <= factor
    requires factor * mcu1 <= index < factor * (mcu1 + 1)
    requires factor * mcu2 <= index < factor * (mcu2 + 1)
    ensures mcu1 == mcu2
  {
    MulCancelLess(factor, mcu2, mcu1 + 1);
    MulCancelLess(factor, mcu1, mcu2 + 1);
  }

  /** Distinct MCU positions never visit the same block of a component. */
  lemma McuVisitsDisjoint(comp: Component, mcuY1: nat, mcuX1: nat, mcuY2: nat, mcuX2: nat, r: int, c: int)
    requires GridWellFormed(comp)
    requires InMcu(comp, mcuY1, mcuX1, r, c) && InMcu(comp, mcuY2, mcuX2, r, c)
    ensures mcuY1 == mcuY2 && mcuX1 == mcuX2
  {
    AxisMcuUnique(comp.vSampFactor, mcuY1, mcuY2, r);
    AxisMcuUnique(comp.hSampFactor, mcuX1, mcuX2, c);
  }

  /**
   * The blocks of a component that an MCU grid of `mcuRows` x `mcuCols`
   * reaches: the clipped rectangle [0, min(H, v*mcuRows)) x [0, min(W, h*mcuCols)).
   */
  predicate InScannedArea(comp: Component, mcuRows: nat, mcuCols: nat, r: int, c: int) {
    0 <= r < Min(comp.heightInBlocks, comp.vSampFactor * mcuRows) &&
    0 <= c < Min(comp.widthInBlocks, comp.hSampFactor * mcuCols)
  }

  /** Every block of an MCU inside the grid lies in the scanned area. */
  lemma McuInScannedArea(comp: Component, mcuRows: nat, mcuCols: nat, mcuY: nat, mcuX: nat, r: int, c: int)
    requires GridWellFormed(comp) && mcuY < mcuRows && mcuX < mcuCols
    requires InMcu(comp, mcuY, mcuX, r, c)
    ensures InScannedArea(comp, mcuRows, mcuCols, r, c)
  {
    McuBlockInGrid(comp, mcuY, mcuX, r, c);
    MulMonotone(comp.vSampFactor, mcuY + 1, mcuRows);
    MulMonotone(comp.hSampFactor, mcuX + 1, mcuCols);
  }

  /** Every block of the scanned area is visited, by the MCU (r / v, c / h). */
  lemma ScannedBlockHasMcu(comp: Component, mcuRows: nat, mcuCols: nat, r: int, c: int)
    requires GridWellFormed(comp) && InScannedArea(comp, mcuRows, mcuCols, r, c)
    ensures r / comp.vSampFactor < mcuRows && c / comp.hSampFactor < mcuCols
    ensures InMcu(comp, r / comp.vSampFactor, c / comp.hSampFactor, r, c)
  {
    var v, h := comp.vSampFactor, comp.hSampFactor;
    DivAtMost(r, v, mcuRows - 1);
    DivAtMost(c, h, mcuCols - 1);
    assert r == v * (r / v) + r % v;
    assert c == h * (c / h) + c % h;
  }

  /** Every block pair of the scanned area of every component passes. */
  ghost predicate ScannedBlocksPass(img1: Image, img2: Image)
    requires Comparable(img1, img2)
  {
    var mcuRows, mcuCols := img1.components[1].heightInBlocks, img1.components[1].widthInBlocks;
    forall p, r, c :: 0 <= p < 3 && InScannedArea(img1.components[p], mcuRows, mcuCols, r, c) ==>
      BlockPasses(img1.components[p].blocks[r][c], img2.components[p].blocks[r][c])
  }

  /**
   * Once the shape guards pass, check_invariant holds exactly when every
   * scanned block pair passes: the MCU enumeration visits each scanned block.
   */
  lemma InvariantIffScannedBlocksPass(img1: Image, img2: Image)
    requires Comparable(img1, img2)
    ensures InvariantHolds(img1, img2) <==> ScannedBlocksPass(img1, img2)
  {
    var mcuRows, mcuCols := img1.components[1].heightInBlocks, img1.components[1].widthInBlocks;
    if InvariantHolds(img1, img2) {
      forall p, r, c | 0 <= p < 3 && InScannedArea(img1.components[p], mcuRows, mcuCols, r, c)
        ensures BlockPasses(img1.components[p].blocks[r][c], img2.components[p].blocks[r][c])
      {
        var comp := img1.components[p];
        ScannedBlockHasMcu(comp, mcuRows, mcuCols, r, c);
        var mcuY, mcuX := r / comp.vSampFactor, c / comp.hSampFactor;
        assert McuPasses(img1, img2, mcuY, mcuX);
        assert PlanePasses(comp, img2.components[p], mcuY, mcuX);
      }
    }
    if ScannedBlocksPass(img1, img2) {
      forall mcuY, mcuX | 0 <= mcuY < mcuRows && 0 <= mcuX < mcuCols
        ensures McuPasses(img1, img2, mcuY, mcuX)
      {
        forall p | 0 <= p < 3
          ensures PlanePasses(img1.components[p], img2.components[p], mcuY, mcuX)
        {
          forall r, c | InMcu(img1.components[p], mcuY, mcuX, r, c)
            ensures BlockPasses(img1.components[p].blocks[r][c], img2.components[p].blocks[r][c])
          {
            McuInScannedArea(img1.components[p], mcuRows, mcuCols, mcuY, mcuX, r, c);
          }
        }
      }
    }
  }

  /** check_invariant is symmetric in its two images. */
  lemma InvariantSymmetric(img1: Image, img2: Image)
    requires WellFormed(img1) && WellFormed(img2)
    ensures InvariantHolds(img1, img2) <==> InvariantHolds(img2, img1)
  {
    if ShapeGuardsPass(img1, img2) {
      assert ShapeGuardsPass(img2, img1);
      InvariantIffScannedBlocksPass(img1, img2);
      InvariantIffScannedBlocksPass(img2, img1);
      forall p, r, c | 0 <= p < 3
        ensures InScannedArea(img1.components[p], img1.components[1].heightInBlocks, img1.components[1].widthInBlocks, r, c)
            <==> InScannedArea(img2.components[p], img2.components[1].heightInBlocks, img2.components[1].widthInBlocks, r, c)
      {
        assert SameGrid(img1.components[p], img2.components[p]);
      }
    } else {
      assert !ShapeGuardsPass(img2, img1);
    }
  }

  /** An image compared with itself passes check_invariant exactly when it is 4:2:0 YCbCr. */
  lemma InvariantReflexive(img: Image)
    requires WellFormed(img)
    ensures InvariantHolds(img, img) <==> Is420YCbCr(img)
  {
    if Is420YCbCr(img) {
      assert ShapeGuardsPass(img, img);
      InvariantIffScannedBlocksPass(img, img);
    }
  }

  /** img2 equals img1 except that some coefficients have their lowest bit flipped. */
  predicate LsbVariant(img1: Image, img2: Image) {
    img1.colorSpace == img2.colorSpace && |img1.components| == |img2.components| &&
    forall p :: 0 <= p < |img1.components| ==> ComponentLsbVariant(img1.components[p], img2.components[p])
  }

  predicate ComponentLsbVariant(comp1: Component, comp2: Component) {
    SameGrid(comp1, comp2) && |comp1.blocks| == |comp2.blocks| &&
    forall r :: 0 <= r < |comp1.blocks| ==>
      |comp1.blocks[r]| == |comp2.blocks[r]| &&
      forall c :: 0 <= c < |comp1.blocks[r]| ==> BlockLsbVariant(comp1.blocks[r][c], comp2.blocks[r][c])
  }

  predicate BlockLsbVariant(block1: seq<int>, block2: seq<int>) {
    |block1| == |block2| &&
    forall j :: 0 <= j < |block1| ==> block2[j] == block1[j] || block2[j] == FlipLsb(block1[j])
  }

  /**
   * The situation the tool looks for: a 4:2:0 YCbCr image and a copy of it
   * whose coefficients differ only in their lowest bits always pass.
   */
  lemma LsbVariantPasses(img1: Image, img2: Image)
    requires WellFormed(img1) && WellFormed(img2)
    requires Is420YCbCr(img1) && LsbVariant(img1, img2)
    ensures InvariantHolds(img1, img2)
  {
    assert ComponentLsbVariant(img1.components[0], img2.components[0]);
    assert ComponentLsbVariant(img1.components[1], img2.components[1]);
    assert ComponentLsbVariant(img1.components[2], img2.components[2]);
    assert ShapeGuardsPass(img1, img2);
    var mcuRows, mcuCols := img1.components[1].heightInBlocks, img1.components[1].widthInBlocks;
    forall p, r, c | 0 <= p < 3 && InScannedArea(img1.components[p], mcuRows, mcuCols, r, c)
      ensures BlockPasses(img1.components[p].blocks[r][c], img2.components[p].blocks[r][c])
    {
      assert ComponentLsbVariant(img1.components[p], img2.components[p]);
      LsbFlipsPass(img1.components[p].blocks[r][c], img2.components[p].blocks[r][c]);
    }
    InvariantIffScannedBlocksPass(img1, img2);
  }

  /** Every coefficient of every block of the image has a valid histogram index. */
  predicate CoefficientsInBinRange(img: Image) {
    forall p, r, c ::
      (0 <= p < |img.components| && 0 <= r < |img.components[p].blocks| && 0 <= c < |img.components[p].blocks[r]|) ==>
      InBinRange(img.components[p].blocks[r][c])
  }

  /** Images whose coefficients all lie in [-256, 255] are always safe to compare. */
  lemma InRangeImagesAreSafe(img1: Image, img2: Image)
    requires Comparable(img1, img2)
    requires CoefficientsInBinRange(img1) && CoefficientsInBinRange(img2)
    ensures InvariantSafe(img1, img2)
  {
    forall mcuY: nat, mcuX: nat, p, r, c | 0 <= p < 3 && InMcu(img1.components[p], mcuY, mcuX, r, c)
      ensures (McuBlockInGrid(img1.components[p], mcuY, mcuX, r, c);
        InBinRange(img1.components[p].blocks[r][c]) && InBinRange(img2.components[p].blocks[r][c]))
    {
      McuBlockInGrid(img1.components[p], mcuY, mcuX, r, c);
    }
  }
}
