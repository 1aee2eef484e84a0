/**
 * The source tile size search of the cloud-shadow operator. For one raster
 * dimension it derives a bound, the smaller of the hard tile dimension minus the
 * two search borders and twice the image's own tile size. From the floor of
 * `rasterSize / bound` tiles on, it picks the exact divisor of the raster
 * nearest the image's tile size. The result can exceed the bound; a bound
 * outside `(0, rasterSize]` is returned as it is.
 */
module TileSize {
  import Int32

  /** Hard upper limit for a padded tile dimension, in pixels. */
  const MAX_TILE_DIMENSION: int := 1400

  /** State of the search loop: the best tile size so far and its distance to the preferred size. */
  datatype Search = Search(best: int, diff: int)

  /** The loop starts with no candidate: best is `Integer.MIN_VALUE`, the distance `Integer.MAX_VALUE`. */
  const Initial: Search := Search(Int32.MIN_VALUE, Int32.MAX_VALUE)

  /** The bound of the search, with Java's 32-bit wrap-around on both operands of the minimum. */
  function MaxTileSize(tileSize: int, borderExtension1: int, borderExtension2: int): (m: int)
    ensures Int32.InRange(m)
    ensures Int32.InRange(MAX_TILE_DIMENSION - borderExtension1 - borderExtension2) && Int32.InRange(2 * tileSize)
            ==> m == Int32.Min(MAX_TILE_DIMENSION - borderExtension1 - borderExtension2, 2 * tileSize)
  {
    Int32.Min(Int32.Wrap(MAX_TILE_DIMENSION - borderExtension1 - borderExtension2), Int32.Wrap(2 * tileSize))
  }

  /** `(int) Math.floor(rasterSize / maxTileSize * 1.)`: Java's truncating integer quotient. */
  function MinNumTiles(rasterSize: int, maxTileSize: int): (n: int)
    requires rasterSize >= 0 && maxTileSize != 0
    ensures n >= 1 <==> 0 < maxTileSize <= rasterSize
    ensures n <= rasterSize
    ensures 0 < maxTileSize ==> n * maxTileSize <= rasterSize < (n + 1) * maxTileSize
    ensures maxTileSize < 0 ==> -n * -maxTileSize <= rasterSize < (-n + 1) * -maxTileSize
  {
    if maxTileSize > 0 then
      QuotientAtLeastOne(rasterSize, maxTileSize);
      QuotientBracket(rasterSize, maxTileSize);
      rasterSize / maxTileSize
    else
      QuotientAtLeastOne(rasterSize, -maxTileSize);
      QuotientBracket(rasterSize, -maxTileSize);
      var q := rasterSize / -maxTileSize;
      assert -(-q) == q;
      -q
  }

  /** Distance of a candidate tile size to the preferred one, `Math.abs(tileSize - candidate)`. */
  function Dist(tileSize: int, candidate: int): nat {
    if tileSize >= candidate then tileSize - candidate else candidate - tileSize
  }

  /** `j` tiles of equal size cover the raster exactly. */
  predicate Divisor(rasterSize: int, j: int) {
    j >= 1 && rasterSize % j == 0
  }

  /** Tile size `a` wins over `b`: nearer the preferred size, and on a tie the smaller one. */
  predicate Prefers(tileSize: int, a: int, b: int) {
    Dist(tileSize, a) < Dist(tileSize, b) || (Dist(tileSize, a) == Dist(tileSize, b) && a <= b)
  }

  /**
   * The search loop from tile count `i` up to `last` inclusive. A divisor whose
   * distance is strictly worse than the best so far ends the search; any other
   * divisor replaces the best. The source's loop runs to `Integer.MAX_VALUE`
   * and ends when `i++` overflows, which `last` stands for.
   */
  function Scan(rasterSize: int, tileSize: int, i: int, last: int, s: Search): (r: Search)
    requires rasterSize >= 0 && i >= 1
    ensures r.diff <= s.diff
    decreases last + 1 - i
  {
    if i > last then s
    else if rasterSize % i == 0 then
      if Dist(tileSize, rasterSize / i) > s.diff then s
      else Scan(rasterSize, tileSize, i + 1, last, Search(rasterSize / i, Dist(tileSize, rasterSize / i)))
    else Scan(rasterSize, tileSize, i + 1, last, s)
  }

  /** What the source's inputs must satisfy: Java ints, image dimensions, and a non-zero divisor. */
  predicate ValidArgs(rasterSize: int, tileSize: int, borderExtension1: int, borderExtension2: int) {
    && 0 <= rasterSize <= Int32.MAX_VALUE
    && 1 <= tileSize <= Int32.MAX_VALUE
    && Int32.InRange(borderExtension1) && Int32.InRange(borderExtension2)
    && MaxTileSize(tileSize, borderExtension1, borderExtension2) != 0
  }

  /** `determineSourceTileSize` exactly as written, its loop running until `i` overflows. */
  function SourceTileSize(rasterSize: int, tileSize: int, borderExtension1: int, borderExtension2: int): (r: int)
    requires ValidArgs(rasterSize, tileSize, borderExtension1, borderExtension2)
    ensures var m := MaxTileSize(tileSize, borderExtension1, borderExtension2);
            && (!(0 < m <= rasterSize) ==> r == m)
            && (0 < m <= rasterSize ==> 1 <= r <= rasterSize && rasterSize % r == 0)
  {
    var maxTileSize := MaxTileSize(tileSize, borderExtension1, borderExtension2);
    var minNumTiles := MinNumTiles(rasterSize, maxTileSize);
    var s := if minNumTiles >= 1 then Scan(rasterSize, tileSize, minNumTiles, Int32.MAX_VALUE, Initial) else Initial;
    assert minNumTiles >= 1 ==> s.diff < Int32.MAX_VALUE && 1 <= s.best <= rasterSize && rasterSize % s.best == 0 by {
      if minNumTiles >= 1 {
        ScanStopsAtRaster(rasterSize, tileSize, minNumTiles, Int32.MAX_VALUE, Initial);
        ScanFindsBest(rasterSize, tileSize, minNumTiles, minNumTiles, Initial);
        BestIsDivisor(rasterSize, tileSize, minNumTiles, s.best);
      }
    }
    if s.diff < Int32.MAX_VALUE then s.best else maxTileSize
  }

  /**
   * The tile size the search is meant to find: `rasterSize / k` for a tile count
   * `k >= n` that divides the raster, preferred over every other such divisor.
   */
  ghost predicate IsBestDivisor(rasterSize: int, tileSize: int, n: int, q: int) {
    && (exists k :: n <= k <= rasterSize && Divisor(rasterSize, k) && q == rasterSize / k)
    && (forall j :: n <= j <= rasterSize && Divisor(rasterSize, j) ==> Prefers(tileSize, q, rasterSize / j))
  }

  // ---------------------------------------------------------------------------
  // Arithmetic facts about divisors

  lemma QuotientAtLeastOne(rasterSize: int, m: int)
    requires rasterSize >= 0 && m >= 1
    ensures rasterSize / m >= 1 <==> rasterSize >= m
    ensures 0 <= rasterSize / m <= rasterSize
  {
    var q, r := rasterSize / m, rasterSize % m;
    assert rasterSize == m * q + r && 0 <= r < m;
    assert q >= 1 ==> m * q >= m;
    assert q <= 0 ==> m * q <= 0;
    assert q >= 1 ==> m * q >= q;
  }

  /** The truncated quotient brackets the raster between two multiples of the divisor. */
  lemma QuotientBracket(rasterSize: int, m: int)
    requires rasterSize >= 0 && m >= 1
    ensures (rasterSize / m) * m <= rasterSize < (rasterSize / m + 1) * m
  {
    var q, r := rasterSize / m, rasterSize % m;
    assert rasterSize == m * q + r && 0 <= r < m;
    assert q * m == m * q;
    assert (q + 1) * m == m * q + m;
  }

  lemma QuotientBounds(rasterSize: int, k: int)
    requires 1 <= k <= rasterSize
    ensures 1 <= rasterSize / k <= rasterSize
  {
  }

  lemma QuotientDivides(rasterSize: int, k: int)
    requires rasterSize >= 1 && Divisor(rasterSize, k)
    ensures rasterSize % (rasterSize / k) == 0
  {
    var q := rasterSize / k;
    assert rasterSize == k * q;
    assert q <= 0 ==> k * q <= 0;
    DivModUnique(rasterSize, q, k, 0);
  }

  /** Euclidean division is unique. */
  lemma DivModUnique(x: int, d: int, a: int, b: int)
    requires d >= 1 && 0 <= b < d && x == a * d + b
    ensures x / d == a && x % d == b
  {
    var e := x / d - a;
    assert d * e == b - x % d;
    assert e >= 1 ==> d * e >= d;
    assert e <= -1 ==> d * e <= -d;
  }

  /** More tiles of an exact division are smaller tiles. */
  lemma QuotientDecreasing(rasterSize: int, k: int, i: int)
    requires rasterSize >= 1 && Divisor(rasterSize, k) && Divisor(rasterSize, i) && k < i
    ensures rasterSize / k > rasterSize / i
  {
    var qk, qi := rasterSize / k, rasterSize / i;
    assert rasterSize == k * qk && rasterSize == i * qi;
    assert qk <= 0 ==> k * qk <= 0;
    assert k * qk < i * qk;
    assert qk <= qi ==> i * qk <= i * qi;
  }

  lemma PrefersTransitive(tileSize: int, a: int, b: int, c: int)
    requires Prefers(tileSize, a, b) && Prefers(tileSize, b, c)
    ensures Prefers(tileSize, a, c)
  {
  }

  // ---------------------------------------------------------------------------
  // The loop's bound

  /** Past `rasterSize` no tile count divides the raster, so the state never changes again. */
  lemma {:induction false} ScanBeyondRaster(rasterSize: int, tileSize: int, i: int, last: int, s: Search)
    requires rasterSize >= 1 && i > rasterSize
    ensures Scan(rasterSize, tileSize, i, last, s) == s
    decreases last + 1 - i
  {
    if i <= last {
      assert rasterSize % i == rasterSize;
      ScanBeyondRaster(rasterSize, tileSize, i + 1, last, s);
    }
  }

  /** Running the loop to any bound at or past `rasterSize` gives the same state as stopping at `rasterSize`. */
  lemma {:induction false} ScanStopsAtRaster(rasterSize: int, tileSize: int, i: int, last: int, s: Search)
    requires 1 <= i <= rasterSize + 1 && 1 <= rasterSize <= last
    ensures Scan(rasterSize, tileSize, i, last, s) == Scan(rasterSize, tileSize, i, rasterSize, s)
    decreases rasterSize + 1 - i
  {
    if i <= rasterSize {
      if rasterSize % i == 0 {
        if Dist(tileSize, rasterSize / i) <= s.diff {
          ScanStopsAtRaster(rasterSize, tileSize, i + 1, last,
                            Search(rasterSize / i, Dist(tileSize, rasterSize / i)));
        }
      } else {
        ScanStopsAtRaster(rasterSize, tileSize, i + 1, last, s);
      }
    } else {
      ScanBeyondRaster(rasterSize, tileSize, i, last, s);
    }
  }

  // ---------------------------------------------------------------------------
  // What the search finds

  /** The loop state after the tile counts `n .. i-1`: no candidate yet, or the preferred divisor among them. */
  ghost predicate SearchInv(rasterSize: int, tileSize: int, n: int, i: int, s: Search) {
    if s.diff == Int32.MAX_VALUE then
      forall j :: n <= j < i ==> !Divisor(rasterSize, j)
    else
      && s.diff == Dist(tileSize, s.best)
      && (exists k :: n <= k < i && Divisor(rasterSize, k) && s.best == rasterSize / k)
      && (forall j :: n <= j < i && Divisor(rasterSize, j) ==> Prefers(tileSize, s.best, rasterSize / j))
  }

  /**
   * Once a divisor is strictly worse than the best one, every later divisor is
   * worse still: the early exit never misses a better tile size.
   */
  lemma BreakIsFinal(rasterSize: int, tileSize: int, n: int, i: int, s: Search)
    requires 1 <= n <= i <= rasterSize && rasterSize <= Int32.MAX_VALUE && 1 <= tileSize <= Int32.MAX_VALUE
    requires SearchInv(rasterSize, tileSize, n, i, s)
    requires Divisor(rasterSize, i) && Dist(tileSize, rasterSize / i) > s.diff
    ensures s.diff < Int32.MAX_VALUE && IsBestDivisor(rasterSize, tileSize, n, s.best)
  {
    var qi := rasterSize / i;
    QuotientBounds(rasterSize, i);
    assert s.diff != Int32.MAX_VALUE;
    var k :| n <= k < i && Divisor(rasterSize, k) && s.best == rasterSize / k;
    QuotientDecreasing(rasterSize, k, i);
    assert qi < tileSize;
    forall j | n <= j <= rasterSize && Divisor(rasterSize, j)
      ensures Prefers(tileSize, s.best, rasterSize / j)
    {
      if j > i {
        QuotientDecreasing(rasterSize, i, j);
      } else if j == i {
      }
    }
  }

  lemma SkipKeepsInv(rasterSize: int, tileSize: int, n: int, i: int, s: Search)
    requires 1 <= i && !Divisor(rasterSize, i)
    requires SearchInv(rasterSize, tileSize, n, i, s)
    ensures SearchInv(rasterSize, tileSize, n, i + 1, s)
  {
  }

  /** Taking a divisor no worse than the best so far keeps the best-so-far property. */
  lemma AcceptKeepsInv(rasterSize: int, tileSize: int, n: int, i: int, s: Search)
    requires 1 <= n <= i <= rasterSize <= Int32.MAX_VALUE && 1 <= tileSize <= Int32.MAX_VALUE
    requires SearchInv(rasterSize, tileSize, n, i, s)
    requires Divisor(rasterSize, i) && Dist(tileSize, rasterSize / i) <= s.diff
    ensures SearchInv(rasterSize, tileSize, n, i + 1, Search(rasterSize / i, Dist(tileSize, rasterSize / i)))
  {
    var q := rasterSize / i;
    QuotientBounds(rasterSize, i);
    assert Dist(tileSize, q) < Int32.MAX_VALUE;
    forall j | n <= j < i + 1 && Divisor(rasterSize, j)
      ensures Prefers(tileSize, q, rasterSize / j)
    {
      if j < i {
        assert s.diff != Int32.MAX_VALUE;
        QuotientDecreasing(rasterSize, j, i);
        var k :| n <= k < i && Divisor(rasterSize, k) && s.best == rasterSize / k;
        QuotientDecreasing(rasterSize, k, i);
        PrefersTransitive(tileSize, q, s.best, rasterSize / j);
      }
    }
    assert n <= i < i + 1 && Divisor(rasterSize, i) && q == rasterSize / i;
  }

  /** Having looked at every tile count up to `rasterSize`, the search holds the best divisor. */
  lemma EndFindsBest(rasterSize: int, tileSize: int, n: int, s: Search)
    requires 1 <= n <= rasterSize <= Int32.MAX_VALUE && 1 <= tileSize <= Int32.MAX_VALUE
    requires SearchInv(rasterSize, tileSize, n, rasterSize + 1, s)
    ensures s.diff < Int32.MAX_VALUE && IsBestDivisor(rasterSize, tileSize, n, s.best)
  {
    if s.diff == Int32.MAX_VALUE {
      assert Divisor(rasterSize, rasterSize);
      assert false;
    }
    var k :| n <= k < rasterSize + 1 && Divisor(rasterSize, k) && s.best == rasterSize / k;
    QuotientBounds(rasterSize, k);
  }

  lemma {:induction false} ScanFindsBest(rasterSize: int, tileSize: int, n: int, i: int, s: Search)
    requires 1 <= n <= rasterSize && n <= i <= rasterSize + 1 && rasterSize <= Int32.MAX_VALUE && 1 <= tileSize <= Int32.MAX_VALUE
    requires SearchInv(rasterSize, tileSize, n, i, s)
    ensures var r := Scan(rasterSize, tileSize, i, rasterSize, s);
            r.diff < Int32.MAX_VALUE && IsBestDivisor(rasterSize, tileSize, n, r.best)
    decreases rasterSize + 1 - i
  {
    if i > rasterSize {
      assert Scan(rasterSize, tileSize, i, rasterSize, s) == s;
      EndFindsBest(rasterSize, tileSize, n, s);
    } else if rasterSize % i == 0 {
      var q := rasterSize / i;
      if Dist(tileSize, q) > s.diff {
        assert Scan(rasterSize, tileSize, i, rasterSize, s) == s;
        BreakIsFinal(rasterSize, tileSize, n, i, s);
      } else {
        var s' := Search(q, Dist(tileSize, q));
        assert Scan(rasterSize, tileSize, i, rasterSize, s) == Scan(rasterSize, tileSize, i + 1, rasterSize, s');
        AcceptKeepsInv(rasterSize, tileSize, n, i, s);
        ScanFindsBest(rasterSize, tileSize, n, i + 1, s');
      }
    } else {
      assert Scan(rasterSize, tileSize, i, rasterSize, s) == Scan(rasterSize, tileSize, i + 1, rasterSize, s);
      SkipKeepsInv(rasterSize, tileSize, n, i, s);
      ScanFindsBest(rasterSize, tileSize, n, i + 1, s);
    }
  }

  /**
   * If the raster is smaller than the bound (or the bound is negative), the loop
   * body never runs and the bound itself is returned. Otherwise the result is
   * an exact divisor of the raster within [1, rasterSize], the one nearest the
   * preferred size over all tile counts from `minNumTiles` on, the smaller one
   * on a tie.
   */
  lemma SourceTileSizeSpec(rasterSize: int, tileSize: int, borderExtension1: int, borderExtension2: int)
    requires ValidArgs(rasterSize, tileSize, borderExtension1, borderExtension2)
    ensures var m := MaxTileSize(tileSize, borderExtension1, borderExtension2);
            var r := SourceTileSize(rasterSize, tileSize, borderExtension1, borderExtension2);
            && (!(0 < m <= rasterSize) ==> r == m)
            && (0 < m <= rasterSize ==>
                  && IsBestDivisor(rasterSize, tileSize, MinNumTiles(rasterSize, m), r)
                  && 1 <= r <= rasterSize
                  && rasterSize % r == 0)
  {
    var m := MaxTileSize(tileSize, borderExtension1, borderExtension2);
    var n := MinNumTiles(rasterSize, m);
    if 0 < m <= rasterSize {
      ScanStopsAtRaster(rasterSize, tileSize, n, Int32.MAX_VALUE, Initial);
      ScanFindsBest(rasterSize, tileSize, n, n, Initial);
    }
  }

  /** The best divisor is an exact tile size between 1 and the raster size. */
  lemma BestIsDivisor(rasterSize: int, tileSize: int, n: int, q: int)
    requires 1 <= n && IsBestDivisor(rasterSize, tileSize, n, q)
    ensures 1 <= q <= rasterSize && rasterSize % q == 0
  {
    var k :| n <= k <= rasterSize && Divisor(rasterSize, k) && q == rasterSize / k;
    QuotientBounds(rasterSize, k);
    QuotientDivides(rasterSize, k);
  }

  /** The characterisation pins the result down: at most one tile size is the best divisor. */
  lemma BestDivisorUnique(rasterSize: int, tileSize: int, n: int, q1: int, q2: int)
    requires IsBestDivisor(rasterSize, tileSize, n, q1) && IsBestDivisor(rasterSize, tileSize, n, q2)
    ensures q1 == q2
  {
    var k1 :| n <= k1 <= rasterSize && Divisor(rasterSize, k1) && q1 == rasterSize / k1;
    var k2 :| n <= k2 <= rasterSize && Divisor(rasterSize, k2) && q2 == rasterSize / k2;
    assert Prefers(tileSize, q1, q2) && Prefers(tileSize, q2, q1);
  }

  /**
   * The search as a bounded loop over tile counts `minNumTiles .. rasterSize`;
   * it returns what the source's overflow-terminated loop returns.
   */
  method DetermineSourceTileSize(rasterSize: int, tileSize: int, borderExtension1: int, borderExtension2: int)
    returns (r: int)
    requires ValidArgs(rasterSize, tileSize, borderExtension1, borderExtension2)
    ensures r == SourceTileSize(rasterSize, tileSize, borderExtension1, borderExtension2)
    ensures var m := MaxTileSize(tileSize, borderExtension1, borderExtension2);
            && (!(0 < m <= rasterSize) ==> r == m)
            && (0 < m <= rasterSize ==> 1 <= r <= rasterSize && rasterSize % r == 0)
  {
    var maxTileSize := MaxTileSize(tileSize, borderExtension1, borderExtension2);
    var minNumTiles := MinNumTiles(rasterSize, maxTileSize);
    var bestTileSize := Int32.MIN_VALUE;
    var smallestDiff := Int32.MAX_VALUE;
    if minNumTiles >= 1 {
      var i := minNumTiles;
      while i <= rasterSize
        invariant minNumTiles <= i <= rasterSize + 1
        invariant Scan(rasterSize, tileSize, i, rasterSize, Search(bestTileSize, smallestDiff))
               == Scan(rasterSize, tileSize, minNumTiles, rasterSize, Initial)
      {
        if rasterSize % i == 0 {
          var candidateDiff := Dist(tileSize, rasterSize / i);
          if candidateDiff > smallestDiff {
            break;
          }
          bestTileSize := rasterSize / i;
          smallestDiff := Dist(tileSize, bestTileSize);
        }
        i := i + 1;
      }
      ScanStopsAtRaster(rasterSize, tileSize, minNumTiles, Int32.MAX_VALUE, Initial);
    }
    if smallestDiff < Int32.MAX_VALUE {
      r := bestTileSize;
    } else {
      r := maxTileSize;
    }
  }

  // ---------------------------------------------------------------------------
  // Edge cases of the source, on concrete inputs

  /** A border of `Integer.MAX_VALUE` on both sides wraps `1400 - b1 - b2` round to 1402. */
  lemma HorizonBorderWraps()
    ensures MaxTileSize(1000, Int32.MAX_VALUE, Int32.MAX_VALUE) == 1402
  {
  }

  /**
   * Where the search starts matters: with raster 1000, image tile 600 and borders
   * 550 the bound is 300 and the search starts at 3 tiles, so it returns 250;
   * from 1 tile on it would have found 500, nearer 600.
   */
  lemma SearchStartsAtFloor()
    ensures MaxTileSize(600, 550, 550) == 300
    ensures MinNumTiles(1000, 300) == 3
    ensures SourceTileSize(1000, 600, 550, 550) == 250
    ensures Scan(1000, 600, 1, Int32.MAX_VALUE, Initial).best == 500
  {
    var s4 := Search(250, 350);
    assert Scan(1000, 600, 5, Int32.MAX_VALUE, s4) == s4;
    assert Scan(1000, 600, 4, Int32.MAX_VALUE, Initial) == s4;
    assert Scan(1000, 600, 3, Int32.MAX_VALUE, Initial) == s4;
    var s2 := Search(500, 100);
    assert Scan(1000, 600, 4, Int32.MAX_VALUE, s2) == s2;
    assert Scan(1000, 600, 3, Int32.MAX_VALUE, s2) == s2;
    assert Scan(1000, 600, 2, Int32.MAX_VALUE, Search(1000, 400)) == s2;
    assert Scan(1000, 600, 1, Int32.MAX_VALUE, Initial) == s2;
  }

  /** A border of 700 on both sides leaves a zero bound, and the division by it would throw. */
  lemma ZeroBoundAtBorder700(tileSize: int)
    requires 1 <= tileSize < 0x4000_0000
    ensures MaxTileSize(tileSize, 700, 700) == 0
    ensures !ValidArgs(0, tileSize, 700, 700)
  {
  }

  /** A border above 700 makes the bound negative, and the negative bound is what the search returns. */
  lemma NegativeBoundAbove700()
    ensures MaxTileSize(512, 701, 701) == -2
    ensures SourceTileSize(10980, 512, 701, 701) == -2
  {
    assert MinNumTiles(10980, -2) == -5490;
  }

  /** Tile sizes 6 and 4 are both one away from 5; the later, smaller one wins. */
  lemma TieGoesToSmallerTile()
    ensures SourceTileSize(12, 5, 0, 0) == 4
  {
    assert MaxTileSize(5, 0, 0) == 10;
    assert MinNumTiles(12, 10) == 1;
    var s1 := Search(12, 7);
    var s2 := Search(6, 1);
    var s3 := Search(4, 1);
    assert Scan(12, 5, 4, Int32.MAX_VALUE, s3) == s3;
    assert Scan(12, 5, 3, Int32.MAX_VALUE, s2) == s3;
    assert Scan(12, 5, 2, Int32.MAX_VALUE, s1) == s3;
    assert Scan(12, 5, 1, Int32.MAX_VALUE, Initial) == s3;
  }

  /** The search starts at the floor of `rasterSize / maxTileSize`, so it can return more than the bound. */
  lemma ResultMayExceedBound()
    ensures MaxTileSize(1000, 650, 650) == 100
    ensures SourceTileSize(150, 1000, 650, 650) == 150
  {
    assert MinNumTiles(150, 100) == 1;
    var s1 := Search(150, 850);
    assert Scan(150, 1000, 2, Int32.MAX_VALUE, s1) == s1;
    assert Scan(150, 1000, 1, Int32.MAX_VALUE, Initial) == s1;
  }
}
