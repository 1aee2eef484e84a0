/**
 * `makeFilledBand`: copies the interior of a padded per-tile working array into
 * the target tile of an output band, dropping the search border of `mkr`
 * pixels on every side.
 */
module FilledBand {
  import opened Geometry

  /** The target tile of an output band: the sample set so far at each pixel. */
  type Band = map<Pixel, int>

  /** One `setSample(x, y, value)` call on the target tile. */
  datatype Sample = Sample(x: int, y: int, value: int)

  function Pos(s: Sample): Pixel {
    (s.x, s.y)
  }

  /** The pixels some call of `ws` writes. */
  function Positions(ws: seq<Sample>): set<Pixel> {
    set k | 0 <= k < |ws| :: Pos(ws[k])
  }

  /** No later call of `ws` writes the pixel that call `k` writes. */
  predicate LastAt(ws: seq<Sample>, k: int)
    requires 0 <= k < |ws|
  {
    forall j :: k < j < |ws| ==> Pos(ws[j]) != Pos(ws[k])
  }

  /** The tile after the calls `ws`, made in order. */
  function Apply(band: Band, ws: seq<Sample>): Band
    decreases |ws|
  {
    if |ws| == 0 then band
    else Apply(band, ws[..|ws| - 1])[Pos(ws[|ws| - 1]) := ws[|ws| - 1].value]
  }

  lemma PositionsAppend(ws: seq<Sample>)
    requires |ws| > 0
    ensures Positions(ws) == Positions(ws[..|ws| - 1]) + {Pos(ws[|ws| - 1])}
  {
    var init := ws[..|ws| - 1];
    forall p | p in Positions(ws) ensures p in Positions(init) + {Pos(ws[|ws| - 1])} {
      var k :| 0 <= k < |ws| && Pos(ws[k]) == p;
      if k < |init| {
        assert init[k] == ws[k];
      }
    }
    forall p | p in Positions(init) ensures p in Positions(ws) {
      var k :| 0 <= k < |init| && Pos(init[k]) == p;
      assert ws[k] == init[k];
    }
  }

  /** After the calls `ws` the tile holds the pixels it held before and those written. */
  lemma {:induction false} ApplyKeys(band: Band, ws: seq<Sample>)
    ensures forall p :: p in Apply(band, ws) <==> p in band || p in Positions(ws)
    decreases |ws|
  {
    if |ws| > 0 {
      ApplyKeys(band, ws[..|ws| - 1]);
      PositionsAppend(ws);
    }
  }

  /** A pixel no call writes keeps its sample. */
  lemma {:induction false} ApplyUnwritten(band: Band, ws: seq<Sample>, p: Pixel)
    requires p in band && p !in Positions(ws)
    ensures p in Apply(band, ws) && Apply(band, ws)[p] == band[p]
    decreases |ws|
  {
    if |ws| > 0 {
      PositionsAppend(ws);
      ApplyUnwritten(band, ws[..|ws| - 1], p);
    }
  }

  /** The last call on a pixel decides its sample. */
  lemma {:induction false} ApplyLastWrite(band: Band, ws: seq<Sample>, k: int)
    requires 0 <= k < |ws| && LastAt(ws, k)
    ensures Pos(ws[k]) in Apply(band, ws) && Apply(band, ws)[Pos(ws[k])] == ws[k].value
    decreases |ws|
  {
    var init := ws[..|ws| - 1];
    if k < |init| {
      assert LastAt(init, k) && init[k] == ws[k];
      ApplyLastWrite(band, init, k);
    }
  }

  /** A call made after `ws` sets its pixel on the tile `ws` left. */
  lemma ApplyAppend(band: Band, ws: seq<Sample>, s: Sample)
    ensures Apply(band, ws + [s]) == Apply(band, ws)[Pos(s) := s.value]
  {
    assert (ws + [s])[..|ws|] == ws;
  }

  /** What `makeFilledBand` needs of its arguments: an input array covering the padded target. */
  predicate ValidCrop(input: seq<int>, target: Rect, mkr: int) {
    && target.width >= 0 && target.height >= 0 && mkr >= 0
    && |input| == (target.width + 2 * mkr) * (target.height + 2 * mkr)
  }

  /** The input index read for target pixel `(target.x + a, target.y + b)`. */
  function ReadIndex(target: Rect, mkr: int, a: int, b: int): int {
    (b + mkr) * (target.width + 2 * mkr) + (a + mkr)
  }

  lemma ReadIndexInBounds(target: Rect, mkr: int, a: int, b: int)
    requires mkr >= 0 && 0 <= a < target.width && 0 <= b < target.height
    ensures 0 <= ReadIndex(target, mkr, a, b) < (target.width + 2 * mkr) * (target.height + 2 * mkr)
  {
    RowMajorInBounds(a + mkr, b + mkr, target.width + 2 * mkr, target.height + 2 * mkr);
  }

  /** The `k`-th call of the crop, counting row by row over the target rectangle. */
  function WriteAt(input: seq<int>, target: Rect, mkr: int, k: int): Sample
    requires ValidCrop(input, target, mkr) && 0 <= k < target.width * target.height
  {
    RowMajorCover(k, target.width, target.height);
    var a, b := k % target.width, k / target.width;
    ReadIndexInBounds(target, mkr, a, b);
    Sample(target.x + a, target.y + b, input[ReadIndex(target, mkr, a, b)])
  }

  /** The first `k` calls of the crop. */
  function WritesUpTo(input: seq<int>, target: Rect, mkr: int, k: int): (ws: seq<Sample>)
    requires ValidCrop(input, target, mkr) && 0 <= k <= target.width * target.height
    ensures |ws| == k
    decreases k
  {
    if k == 0 then [] else WritesUpTo(input, target, mkr, k - 1) + [WriteAt(input, target, mkr, k - 1)]
  }

  /** The `setSample` calls of `makeFilledBand`, in the order its loops make them. */
  function Writes(input: seq<int>, target: Rect, mkr: int): (ws: seq<Sample>)
    requires ValidCrop(input, target, mkr)
    ensures |ws| == target.width * target.height
    ensures forall k :: 0 <= k < |ws| ==> ws[k] == WriteAt(input, target, mkr, k)
  {
    WritesUpToAt(input, target, mkr, target.width * target.height);
    WritesUpTo(input, target, mkr, target.width * target.height)
  }

  lemma {:induction false} WritesUpToAt(input: seq<int>, target: Rect, mkr: int, n: int)
    requires ValidCrop(input, target, mkr) && 0 <= n <= target.width * target.height
    ensures forall k :: 0 <= k < n ==> WritesUpTo(input, target, mkr, n)[k] == WriteAt(input, target, mkr, k)
    decreases n
  {
    if n > 0 {
      WritesUpToAt(input, target, mkr, n - 1);
    }
  }

  /** The crop writes every pixel of the target rectangle exactly once and no pixel outside it. */
  lemma WritesCoverTargetOnce(input: seq<int>, target: Rect, mkr: int)
    requires ValidCrop(input, target, mkr)
    ensures var ws := Writes(input, target, mkr);
            && |ws| == target.width * target.height
            && (forall p :: p in Positions(ws) <==> Contains(target, p))
            && (forall j, k :: 0 <= j < k < |ws| ==> Pos(ws[j]) != Pos(ws[k]))
  {
    var ws := Writes(input, target, mkr);
    var w := target.width;
    forall p | Contains(target, p) ensures p in Positions(ws) {
      var a, b := p.0 - target.x, p.1 - target.y;
      RowMajorInBounds(a, b, w, target.height);
      RowMajorDecode(a, b, w);
      assert Pos(ws[b * w + a]) == p;
    }
    forall p | p in Positions(ws) ensures Contains(target, p) {
      var k :| 0 <= k < |ws| && Pos(ws[k]) == p;
      RowMajorCover(k, w, target.height);
    }
    forall j, k | 0 <= j < k < |ws| ensures Pos(ws[j]) != Pos(ws[k]) {
      RowMajorCover(j, w, target.height);
      RowMajorCover(k, w, target.height);
    }
  }

  /**
   * Target pixel `(target.x + a, target.y + b)` receives input entry
   * `(b + mkr)(w + 2 mkr) + (a + mkr)`, an index inside the input; every other
   * pixel of the tile keeps its sample.
   */
  function FilledBand(input: seq<int>, target: Rect, band: Band, mkr: int): (r: Band)
    requires ValidCrop(input, target, mkr)
    ensures forall p :: p in r <==> p in band || Contains(target, p)
    ensures forall p :: p in band && !Contains(target, p) ==> r[p] == band[p]
    ensures forall p :: Contains(target, p) ==>
              && 0 <= ReadIndex(target, mkr, p.0 - target.x, p.1 - target.y) < |input|
              && r[p] == input[ReadIndex(target, mkr, p.0 - target.x, p.1 - target.y)]
  {
    FilledBandValues(input, target, band, mkr);
    Apply(band, Writes(input, target, mkr))
  }


  lemma FilledBandValues(input: seq<int>, target: Rect, band: Band, mkr: int)
    requires ValidCrop(input, target, mkr)
    ensures var r := Apply(band, Writes(input, target, mkr));
            && (forall p :: p in r <==> p in band || Contains(target, p))
            && (forall p :: p in band && !Contains(target, p) ==> r[p] == band[p])
            && (forall p :: Contains(target, p) ==>
                  && 0 <= ReadIndex(target, mkr, p.0 - target.x, p.1 - target.y) < |input|
                  && r[p] == input[ReadIndex(target, mkr, p.0 - target.x, p.1 - target.y)])
  {
    var ws := Writes(input, target, mkr);
    WritesCoverTargetOnce(input, target, mkr);
    ApplyKeys(band, ws);
    forall p | p in band && !Contains(target, p) ensures Apply(band, ws)[p] == band[p] {
      ApplyUnwritten(band, ws, p);
    }
    forall p | Contains(target, p)
      ensures && 0 <= ReadIndex(target, mkr, p.0 - target.x, p.1 - target.y) < |input|
              && p in Apply(band, ws)
              && Apply(band, ws)[p] == input[ReadIndex(target, mkr, p.0 - target.x, p.1 - target.y)]
    {
      CropPixel(input, target, mkr, p);
      var k := (p.1 - target.y) * target.width + (p.0 - target.x);
      assert LastAt(ws, k);
      ApplyLastWrite(band, ws, k);
    }
  }

  /** The call that writes target pixel `p`, and the value it writes. */
  lemma CropPixel(input: seq<int>, target: Rect, mkr: int, p: Pixel)
    requires ValidCrop(input, target, mkr) && Contains(target, p)
    ensures var k := (p.1 - target.y) * target.width + (p.0 - target.x);
            var ws := Writes(input, target, mkr);
            && 0 <= k < |ws|
            && Pos(ws[k]) == p
            && 0 <= ReadIndex(target, mkr, p.0 - target.x, p.1 - target.y) < |input|
            && ws[k].value == input[ReadIndex(target, mkr, p.0 - target.x, p.1 - target.y)]
  {
    var w := target.width;
    var a, b := p.0 - target.x, p.1 - target.y;
    ReadIndexInBounds(target, mkr, a, b);
    RowMajorInBounds(a, b, w, target.height);
    RowMajorDecode(a, b, w);
  }

  /** With no border the crop is a plain row-major copy of the input. */
  lemma PlainCopyWithoutBorder(input: seq<int>, target: Rect)
    requires ValidCrop(input, target, 0)
    ensures var ws := Writes(input, target, 0);
            && |ws| == |input|
            && forall k :: 0 <= k < |ws| ==> ws[k].value == input[k]
  {
    var ws := Writes(input, target, 0);
    forall k | 0 <= k < |ws| ensures ws[k].value == input[k] {
      RowMajorCover(k, target.width, target.height);
    }
  }

  /**
   * The working arrays of `computeTileStack` are laid out over the source
   * rectangle `grow(r, r)`; cropping one of them with border `r` gives every
   * target pixel the entry the array holds for that very pixel.
   */
  lemma CropReadsSamePixel(input: seq<int>, target: Rect, band: Band, radius: int)
    requires target.width >= 0 && target.height >= 0 && radius >= 0
    requires |input| == Area(Grow(target, radius, radius))
    ensures ValidCrop(input, target, radius)
    ensures var r := FilledBand(input, target, band, radius);
            forall p :: Contains(target, p) ==>
              && 0 <= LocalIndex(Grow(target, radius, radius), p) < |input|
              && r[p] == input[LocalIndex(Grow(target, radius, radius), p)]
  {
    var r := FilledBand(input, target, band, radius);
    forall p | Contains(target, p)
      ensures && 0 <= LocalIndex(Grow(target, radius, radius), p) < |input|
              && r[p] == input[LocalIndex(Grow(target, radius, radius), p)]
    {
      SourceIndexIsReadIndex(target, radius, p);
    }
  }

  lemma SourceIndexIsReadIndex(target: Rect, radius: int, p: Pixel)
    requires target.width >= 0 && target.height >= 0 && radius >= 0 && Contains(target, p)
    ensures LocalIndex(Grow(target, radius, radius), p) == ReadIndex(target, radius, p.0 - target.x, p.1 - target.y)
  {
    var a, b := p.0 - target.x, p.1 - target.y;
    GrowMatchesPadding(target, radius, a, b);
    assert p == (target.x + a, target.y + b);
  }

  /** The call the loops of `makeFilledBand` make at padded column `x` of padded row `y`. */
  lemma CallAt(input: seq<int>, target: Rect, mkr: int, x: int, y: int)
    requires ValidCrop(input, target, mkr)
    requires mkr <= x < target.width + mkr && mkr <= y < target.height + mkr
    ensures var k := (y - mkr) * target.width + (x - mkr);
            && 0 <= k < target.width * target.height
            && 0 <= y * (target.width + 2 * mkr) + x < |input|
            && WriteAt(input, target, mkr, k)
               == Sample(x - mkr + target.x, y - mkr + target.y, input[y * (target.width + 2 * mkr) + x])
  {
    var a, b := x - mkr, y - mkr;
    RowMajorInBounds(a, b, target.width, target.height);
    RowMajorDecode(a, b, target.width);
    ReadIndexInBounds(target, mkr, a, b);
    assert ReadIndex(target, mkr, a, b) == y * (target.width + 2 * mkr) + x;
  }

  /** One more padded row moves the count of calls on by one target row. */
  lemma NextRow(w: int, h: int, b: int)
    requires w >= 0 && 0 <= b < h
    ensures b * w + w == (b + 1) * w <= w * h
  {
    assert (b + 1) * w <= h * w;
  }

  /**
   * `makeFilledBand` with its two nested loops over the padded rows and columns;
   * it returns the filled tile and the `setSample` calls it made, in order.
   */
  method MakeFilledBand(inputData: seq<int>, targetRectangle: Rect, band: Band, mkr: int)
    returns (out: Band, calls: seq<Sample>)
    requires ValidCrop(inputData, targetRectangle, mkr)
    ensures calls == Writes(inputData, targetRectangle, mkr)
    ensures out == FilledBand(inputData, targetRectangle, band, mkr)
  {
    var xLocation := targetRectangle.x;
    var yLocation := targetRectangle.y;
    var inputDataWidth := targetRectangle.width + 2 * mkr;
    var inputDataHeight := targetRectangle.height + 2 * mkr;
    ghost var w, h := targetRectangle.width, targetRectangle.height;
    ghost var row := 0;
    out, calls := band, [];
    var y := mkr;
    while y < inputDataHeight - mkr
      invariant mkr <= y <= inputDataHeight - mkr
      invariant row == (y - mkr) * w && row <= w * h
      invariant calls == WritesUpTo(inputData, targetRectangle, mkr, row)
      invariant out == Apply(band, calls)
    {
      NextRow(w, h, y - mkr);
      var x := mkr;
      while x < inputDataWidth - mkr
        invariant mkr <= x <= inputDataWidth - mkr
        invariant row + (x - mkr) <= row + w <= w * h
        invariant calls == WritesUpTo(inputData, targetRectangle, mkr, row + (x - mkr))
        invariant out == Apply(band, calls)
      {
        CallAt(inputData, targetRectangle, mkr, x, y);
        var s := Sample(x - mkr + xLocation, y - mkr + yLocation, inputData[y * inputDataWidth + x]);
        assert WriteAt(inputData, targetRectangle, mkr, row + (x - mkr)) == s;
        ApplyAppend(band, calls, s);
        calls := calls + [s];
        out := out[(s.x, s.y) := s.value];
        x := x + 1;
      }
      row := row + w;
      y := y + 1;
    }
    assert row == h * w == w * h;
  }
}
