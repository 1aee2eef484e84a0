/**
 * The control flow of `computeTileStack` for one target tile. The detection
 * stages are parameters: each receives the tile's working arrays and returns
 * them, possibly changed, along with whatever it computes.
 */
module TileStack {
  import opened Wrappers
  import opened Geometry
  import FilledBand
  import AnalysisMode

  /** The per-tile working arrays, laid out row-major over the source rectangle. */
  datatype Work = Work(
    flags: seq<int>, cloudShadow: seq<int>, cloudId: seq<int>, shadowId: seq<int>, longShadowId: seq<int>)

  /** Freshly allocated arrays of `n` zeros, as `new int[n]` gives them. */
  function Blank(n: nat): (w: Work)
    ensures Sized(w, n)
    ensures forall i :: 0 <= i < n ==>
              w.flags[i] == 0 && w.cloudShadow[i] == 0 && w.cloudId[i] == 0 && w.shadowId[i] == 0 && w.longShadowId[i] == 0
  {
    var zeros := seq(n, _ => 0);
    Work(zeros, zeros, zeros, zeros, zeros)
  }

  predicate Sized(w: Work, n: int) {
    |w.flags| == n && |w.cloudShadow| == n && |w.cloudId| == n && |w.shadowId| == n && |w.longShadowId| == n
  }

  /**
   * The helper stages, over the tile's inputs (classification flags, sun angles,
   * elevation, geocoding, spectral bands), which they capture.
   */
  datatype Stages = Stages(
    /** `PreparationMaskBand.prepareMaskBand`: fills the flag array from the classification. */
    prepareMaskBand: Work -> Work,
    /** `MountainShadowAreasPathCentralPixel.makeMountainShadowArea`: the mountain shadow array. */
    makeMountainShadowArea: Work -> (seq<int>, Work),
    /** `SegmentationCloud.computeCloudID`: the number of cloud clusters, and the cluster ids. */
    computeCloudId: Work -> (int, Work),
    /** `PotentialCloudShadowAreasPathCentralPixel.makeCloudShadowArea`: candidate shadow and its border rectangles. */
    makeCloudShadowArea: (Work, int) -> (seq<seq<int>>, Work),
    /** `CloudShadowIDAnalyzer.identifyCloudShadowAreas`: confirms or rejects the candidates. */
    identifyCloudShadowAreas: (Work, seq<seq<int>>, int, AnalysisMode.Mode) -> Work,
    /** `GrowingCloudShadow.computeCloudShadowBorder`: grows the confirmed shadow. */
    computeCloudShadowBorder: Work -> Work)

  /**
   * Java arrays cannot change length, so each stage hands back arrays of the
   * length it was given; the mountain shadow array covers the source rectangle too.
   */
  ghost predicate KeepsSize(st: Stages, n: int) {
    && (forall w :: Sized(w, n) ==> Sized(st.prepareMaskBand(w), n))
    && (forall w :: Sized(w, n) ==> |st.makeMountainShadowArea(w).0| == n && Sized(st.makeMountainShadowArea(w).1, n))
    && (forall w :: Sized(w, n) ==> Sized(st.computeCloudId(w).1, n))
    && (forall w, c :: Sized(w, n) ==> Sized(st.makeCloudShadowArea(w, c).1, n))
    && (forall w, b, c, m :: Sized(w, n) ==> Sized(st.identifyCloudShadowAreas(w, b, c, m), n))
    && (forall w :: Sized(w, n) ==> Sized(st.computeCloudShadowBorder(w), n))
  }

  /**
   * `out` is `before` with the target rectangle filled from `data`, an array over
   * the source rectangle `grow(radius, radius)`: each target pixel gets the entry
   * for that same pixel, every other pixel keeps its sample.
   */
  ghost predicate CroppedFrom(out: FilledBand.Band, before: FilledBand.Band, data: seq<int>, target: Rect, radius: int) {
    var source := Grow(target, radius, radius);
    && (forall p :: p in out <==> p in before || Contains(target, p))
    && (forall p :: p in before && !Contains(target, p) ==> out[p] == before[p])
    && (forall p :: Contains(target, p) ==>
          0 <= LocalIndex(source, p) < |data| && out[p] == data[LocalIndex(source, p)])
  }

  /** What one call of `computeTileStack` leaves behind. */
  datatype TileStack = TileStack(
    counterTable: int, work: Work, mountainArea: Option<seq<int>>,
    flagBand: FilledBand.Band, mountainBand: FilledBand.Band)

  function Crop(data: seq<int>, target: Rect, band: FilledBand.Band, radius: int): (r: FilledBand.Band)
    requires target.width >= 0 && target.height >= 0 && radius >= 0
    requires |data| == Area(Grow(target, radius, radius))
    ensures CroppedFrom(r, band, data, target, radius)
  {
    FilledBand.CropReadsSamePixel(data, target, band, radius);
    FilledBand.FilledBand(data, target, band, radius)
  }

  /** The arrays after the flag preparation and, when asked for, the mountain shadow stage. */
  function BeforeSegmentation(st: Stages, computeMountainShadow: bool, n: nat): (w: Work)
    requires KeepsSize(st, n)
    ensures Sized(w, n)
  {
    var prepared := st.prepareMaskBand(Blank(n));
    if computeMountainShadow then st.makeMountainShadowArea(prepared).1 else prepared
  }

  /** The three shadow stages, in the order the source runs them on a tile with clouds. */
  function ShadowStages(st: Stages, segmented: Work, counterTable: int, mode: AnalysisMode.Mode): (w: Work)
    requires KeepsSize(st, |segmented.flags|) && Sized(segmented, |segmented.flags|)
    ensures Sized(w, |segmented.flags|)
  {
    var (borderRectangles, cast) := st.makeCloudShadowArea(segmented, counterTable);
    st.computeCloudShadowBorder(st.identifyCloudShadowAreas(cast, borderRectangles, counterTable, mode))
  }

  /**
   * One target tile. The mountain shadow band is written only when mountain
   * shadow is computed; the flag band is written only when the segmentation
   * finds clouds, and a cloud-free tile leaves it untouched and skips the shadow
   * stages. What is written is the crop of an array over the source rectangle,
   * pixel for pixel.
   */
  function ComputeTileStack(st: Stages, mode: AnalysisMode.Mode, computeMountainShadow: bool,
                            targetRectangle: Rect, searchBorderRadius: int,
                            flagBand: FilledBand.Band, mountainBand: FilledBand.Band): (r: TileStack)
    requires targetRectangle.width >= 0 && targetRectangle.height >= 0 && searchBorderRadius >= 0
    requires KeepsSize(st, Area(Grow(targetRectangle, searchBorderRadius, searchBorderRadius)))
    ensures Sized(r.work, Area(Grow(targetRectangle, searchBorderRadius, searchBorderRadius)))
    ensures r.counterTable == 0 ==> r.flagBand == flagBand
    ensures r.counterTable != 0 ==> CroppedFrom(r.flagBand, flagBand, r.work.flags, targetRectangle, searchBorderRadius)
    ensures r.mountainArea.Some? <==> computeMountainShadow
    ensures !computeMountainShadow ==> r.mountainBand == mountainBand
    ensures computeMountainShadow ==>
              CroppedFrom(r.mountainBand, mountainBand, r.mountainArea.value, targetRectangle, searchBorderRadius)
  {
    var sourceRectangle := Grow(targetRectangle, searchBorderRadius, searchBorderRadius);
    var sourceLength := Area(sourceRectangle);
    assert sourceLength >= 0 by {
      assert sourceRectangle.width >= 0 && sourceRectangle.height >= 0;
    }
    var prepared := st.prepareMaskBand(Blank(sourceLength));
    var (mountainArea, mountainOut) :=
      if computeMountainShadow then
        var area := st.makeMountainShadowArea(prepared).0;
        (Some(area), Crop(area, targetRectangle, mountainBand, searchBorderRadius))
      else (None, mountainBand);
    var (counterTable, segmented) := st.computeCloudId(BeforeSegmentation(st, computeMountainShadow, sourceLength));
    assert Sized(segmented, sourceLength);
    if counterTable != 0 then
      var grown := ShadowStages(st, segmented, counterTable, mode);
      TileStack(counterTable, grown, mountainArea,
                Crop(grown.flags, targetRectangle, flagBand, searchBorderRadius), mountainOut)
    else
      TileStack(counterTable, segmented, mountainArea, flagBand, mountainOut)
  }

  /**
   * The stages run in the source's order: preparation, then mountain shadow
   * when asked for, then segmentation, whose cluster count is the tile's. With
   * clouds, the three shadow stages follow on the segmented arrays; without,
   * the arrays stay as the segmentation left them.
   */
  lemma TileStackRunsStages(st: Stages, mode: AnalysisMode.Mode, computeMountainShadow: bool,
                            targetRectangle: Rect, searchBorderRadius: int,
                            flagBand: FilledBand.Band, mountainBand: FilledBand.Band, n: nat)
    requires targetRectangle.width >= 0 && targetRectangle.height >= 0 && searchBorderRadius >= 0
    requires n == Area(Grow(targetRectangle, searchBorderRadius, searchBorderRadius))
    requires KeepsSize(st, n)
    ensures var r := ComputeTileStack(st, mode, computeMountainShadow, targetRectangle, searchBorderRadius,
                                      flagBand, mountainBand);
            var (counterTable, segmented) := st.computeCloudId(BeforeSegmentation(st, computeMountainShadow, n));
            && r.counterTable == counterTable
            && (counterTable == 0 ==> r.work == segmented)
            && (counterTable != 0 ==> r.work == ShadowStages(st, segmented, counterTable, mode))
            && (computeMountainShadow ==> r.mountainArea == Some(st.makeMountainShadowArea(st.prepareMaskBand(Blank(n))).0))
            && (computeMountainShadow ==>
                  r.mountainBand == Crop(r.mountainArea.value, targetRectangle, mountainBand, searchBorderRadius))
  {
  }

  /** Two stage sets that agree up to the segmentation. */
  ghost predicate AgreeUpToSegmentation(st1: Stages, st2: Stages) {
    && st1.prepareMaskBand == st2.prepareMaskBand
    && st1.makeMountainShadowArea == st2.makeMountainShadowArea
    && st1.computeCloudId == st2.computeCloudId
  }

  /**
   * The mountain shadow band never depends on the shadow stages, and a tile
   * on which the segmentation finds no cloud does not depend on them at all:
   * they are not run.
   */
  lemma CloudFreeTileSkipsShadowStages(st1: Stages, st2: Stages, mode: AnalysisMode.Mode, computeMountainShadow: bool,
                                       targetRectangle: Rect, searchBorderRadius: int,
                                       flagBand: FilledBand.Band, mountainBand: FilledBand.Band)
    requires targetRectangle.width >= 0 && targetRectangle.height >= 0 && searchBorderRadius >= 0
    requires KeepsSize(st1, Area(Grow(targetRectangle, searchBorderRadius, searchBorderRadius)))
    requires KeepsSize(st2, Area(Grow(targetRectangle, searchBorderRadius, searchBorderRadius)))
    requires AgreeUpToSegmentation(st1, st2)
    ensures var r1 := ComputeTileStack(st1, mode, computeMountainShadow, targetRectangle, searchBorderRadius, flagBand, mountainBand);
            var r2 := ComputeTileStack(st2, mode, computeMountainShadow, targetRectangle, searchBorderRadius, flagBand, mountainBand);
            && r1.counterTable == r2.counterTable
            && r1.mountainArea == r2.mountainArea
            && r1.mountainBand == r2.mountainBand
            && (r1.counterTable == 0 ==> r1 == r2)
  {
    var n := Area(Grow(targetRectangle, searchBorderRadius, searchBorderRadius));
    assert n >= 0 by {
      assert Grow(targetRectangle, searchBorderRadius, searchBorderRadius).width >= 0;
    }
    TileStackRunsStages(st1, mode, computeMountainShadow, targetRectangle, searchBorderRadius, flagBand, mountainBand, n);
    TileStackRunsStages(st2, mode, computeMountainShadow, targetRectangle, searchBorderRadius, flagBand, mountainBand, n);
    assert BeforeSegmentation(st1, computeMountainShadow, n) == BeforeSegmentation(st2, computeMountainShadow, n);
  }
}
