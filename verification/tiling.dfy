/** The scene-level planning of `initialize`: tile sizes, preferred tiling, search border and mode. */
module Tiling {
  import opened Wrappers
  import Int32
  import TileSize
  import AnalysisMode

  /** The preferred tile size set on the target product, and the search border radius kept. */
  datatype Tiling = Tiling(preferredWidth: int, preferredHeight: int, searchBorderRadius: int)

  predicate FitsOneTile(rasterWidth: int, rasterHeight: int, tileWidth: int, tileHeight: int) {
    rasterWidth <= tileWidth && rasterHeight <= tileHeight
  }

  /**
   * A raster that fits the computed tile in both dimensions becomes a single
   * tile and needs no search border; otherwise each preferred dimension is the
   * smaller of raster and tile, and the radius is kept.
   */
  function DecideTiling(rasterWidth: int, rasterHeight: int, tileWidth: int, tileHeight: int, radius: int): (t: Tiling)
    ensures t.preferredWidth <= rasterWidth && t.preferredHeight <= rasterHeight
    ensures (t.preferredWidth == rasterWidth && t.preferredHeight == rasterHeight)
            <==> FitsOneTile(rasterWidth, rasterHeight, tileWidth, tileHeight)
    ensures t.searchBorderRadius == 0 <==> FitsOneTile(rasterWidth, rasterHeight, tileWidth, tileHeight) || radius == 0
    ensures !FitsOneTile(rasterWidth, rasterHeight, tileWidth, tileHeight) ==>
              && t.preferredWidth <= tileWidth && t.preferredHeight <= tileHeight
              && (t.preferredWidth == rasterWidth || t.preferredWidth == tileWidth)
              && (t.preferredHeight == rasterHeight || t.preferredHeight == tileHeight)
              && t.searchBorderRadius == radius
  {
    if rasterWidth > tileWidth || rasterHeight > tileHeight then
      Tiling(Int32.Min(rasterWidth, tileWidth), Int32.Min(rasterHeight, tileHeight), radius)
    else
      Tiling(rasterWidth, rasterHeight, 0)
  }

  /**
   * Both branches of the decision come to the same thing: each preferred
   * dimension is the smaller of raster and tile, and the radius survives
   * exactly when the raster overflows the tile in some dimension.
   */
  lemma DecideTilingIsMinimum(rasterWidth: int, rasterHeight: int, tileWidth: int, tileHeight: int, radius: int)
    ensures var t := DecideTiling(rasterWidth, rasterHeight, tileWidth, tileHeight, radius);
            && t.preferredWidth == (if rasterWidth <= tileWidth then rasterWidth else tileWidth)
            && t.preferredHeight == (if rasterHeight <= tileHeight then rasterHeight else tileHeight)
            && t.searchBorderRadius == (if rasterWidth > tileWidth || rasterHeight > tileHeight then radius else 0)
  {
  }

  /** What `initialize` settles once per scene, before any tile is computed. */
  datatype ScenePlan = ScenePlan(
    tileWidth: int, tileHeight: int, tiling: Tiling, mode: AnalysisMode.Mode, mountainShadowBand: bool)

  /** What the scene must satisfy for the tile size searches not to divide by zero. */
  predicate ValidScene(rasterWidth: int, rasterHeight: int, sourceTileWidth: int, sourceTileHeight: int, radius: int) {
    && TileSize.ValidArgs(rasterWidth, sourceTileWidth, radius, radius)
    && TileSize.ValidArgs(rasterHeight, sourceTileHeight, radius, radius)
  }

  /**
   * `initialize` from the computed search border radius on: the tile sizes, the
   * tiling decision, then the mode switch, which fails the whole run on an
   * unknown mode. The mountain shadow band is added only when asked for.
   */
  function Initialize(rasterWidth: int, rasterHeight: int, sourceTileWidth: int, sourceTileHeight: int,
                      radius: int, mode: string, computeMountainShadow: bool): (r: Result<ScenePlan, string>)
    requires ValidScene(rasterWidth, rasterHeight, sourceTileWidth, sourceTileHeight, radius)
    ensures r.Success? <==> AnalysisMode.ParseMode(mode).Success?
    ensures r.Failure? ==> r.error == AnalysisMode.INVALID_MODE_MESSAGE
    ensures r.Success? ==>
              && AnalysisMode.Name(r.value.mode) == mode
              && r.value.mountainShadowBand == computeMountainShadow
              && r.value.tileWidth == TileSize.SourceTileSize(rasterWidth, sourceTileWidth, radius, radius)
              && r.value.tileHeight == TileSize.SourceTileSize(rasterHeight, sourceTileHeight, radius, radius)
              && r.value.tiling == DecideTiling(rasterWidth, rasterHeight, r.value.tileWidth, r.value.tileHeight, radius)
  {
    var tileWidth := TileSize.SourceTileSize(rasterWidth, sourceTileWidth, radius, radius);
    var tileHeight := TileSize.SourceTileSize(rasterHeight, sourceTileHeight, radius, radius);
    var tiling := DecideTiling(rasterWidth, rasterHeight, tileWidth, tileHeight, radius);
    var analysisMode :- AnalysisMode.ParseMode(mode);
    Success(ScenePlan(tileWidth, tileHeight, tiling, analysisMode, computeMountainShadow))
  }

  /**
   * A raster smaller than the search bound in both dimensions is one tile: the
   * search returns the bound itself, the raster fits it, and the border is dropped.
   */
  lemma SmallSceneIsOneTile(rasterWidth: int, rasterHeight: int, sourceTileWidth: int, sourceTileHeight: int,
                            radius: int, mode: string, computeMountainShadow: bool)
    requires ValidScene(rasterWidth, rasterHeight, sourceTileWidth, sourceTileHeight, radius)
    requires rasterWidth < TileSize.MaxTileSize(sourceTileWidth, radius, radius)
    requires rasterHeight < TileSize.MaxTileSize(sourceTileHeight, radius, radius)
    requires AnalysisMode.ParseMode(mode).Success?
    ensures var r := Initialize(rasterWidth, rasterHeight, sourceTileWidth, sourceTileHeight, radius, mode, computeMountainShadow);
            && r.Success?
            && r.value.tiling == Tiling(rasterWidth, rasterHeight, 0)
  {
    TileSize.SourceTileSizeSpec(rasterWidth, sourceTileWidth, radius, radius);
    TileSize.SourceTileSizeSpec(rasterHeight, sourceTileHeight, radius, radius);
  }
}
