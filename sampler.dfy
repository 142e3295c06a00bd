/** The greedy rejection sampler `create_tiles` and its exclusion test `too_close`. */
module Sampler {
  import opened Geometry
  import opened MapSettings
  import opened Palette

  /** A seed of the map: its colour and its centre. Never changed once built. */
  datatype Tile = Tile(color: Color, center: Point)

  /** One round of the sampling loop's randomness: the point drawn by the two
      `randint` calls and the colour draw used if that point is accepted. */
  datatype Candidate = Candidate(center: Point, colorDraw: int)

  /** How a run of the sampler ends. `Placed` is the source's return; `Exhausted`
      means the supplied candidates ran out while seeds were still missing (the
      source would keep drawing); `EmptyRange` is the `ValueError` of
      `randint(0, n - 1)` on an empty canvas side. */
  datatype Sampled = Placed(tiles: seq<Tile>) | Exhausted(tiles: seq<Tile>) | EmptyRange

  /** Both `randint` ranges of the loop contain a value. */
  predicate NonEmptyCanvas(s: Settings) {
    s.width >= 1 && s.height >= 1
  }

  /** A value `random.randint` can return: both bounds are inclusive. */
  predicate Drawable(c: Candidate, s: Settings) {
    0 <= c.center.x <= s.width - 1 && 0 <= c.center.y <= s.height - 1 && 0 <= c.colorDraw <= 10
  }

  /** `get_euclidean(a, b) < min_size`, compared on squares. With a positive
      tile count the test needs no division and no square root: it is
      `(dx² + dy²) · tiles < min(width, height)`; a negative count flips it. */
  predicate WithinExclusion(a: Point, b: Point, s: Settings): (r: bool)
    requires ValidSettings(s)
    ensures s.tiles > 0 ==> (r <==> SquaredDistance(a, b) * s.tiles < Min(s.width, s.height))
    ensures s.tiles < 0 ==> (r <==> SquaredDistance(a, b) * s.tiles > Min(s.width, s.height))
  {
    (SquaredDistance(a, b) as real) < MinSizeSquared(s)
  }

  /** Some tile of `tiles` has its centre strictly closer than `min_size` to `p`. */
  predicate TooCloseToAny(p: Point, tiles: seq<Tile>, s: Settings)
    requires ValidSettings(s)
  {
    exists j :: 0 <= j < |tiles| && WithinExclusion(p, tiles[j].center, s)
  }

  /** No two distinct tiles are closer than `min_size`. */
  predicate Separated(tiles: seq<Tile>, s: Settings)
    requires ValidSettings(s)
  {
    forall i, j :: 0 <= i < |tiles| && 0 <= j < |tiles| && i != j ==>
      !WithinExclusion(tiles[i].center, tiles[j].center, s)
  }

  /** Every centre lies on the canvas. */
  predicate InCanvas(tiles: seq<Tile>, s: Settings) {
    forall j :: 0 <= j < |tiles| ==>
      0 <= tiles[j].center.x <= s.width - 1 && 0 <= tiles[j].center.y <= s.height - 1
  }

  lemma WithinSymmetric(a: Point, b: Point, s: Settings)
    requires ValidSettings(s)
    ensures WithinExclusion(a, b, s) == WithinExclusion(b, a, s)
  {
    DistanceSymmetric(a, b);
  }

  /** The exclusion test on square roots, as line 29 writes it, agrees with the
      squared test: for any non-negative `dist` and `minSize` whose squares are
      the squared distance and `min_size` squared, `dist < minSize` exactly when
      the points are within the exclusion radius. */
  lemma {:induction false} SquaredTestMatchesRoots(a: Point, b: Point, s: Settings, dist: real, minSize: real)
    requires ValidSettings(s)
    requires dist >= 0.0 && dist * dist == SquaredDistance(a, b) as real
    requires minSize >= 0.0 && minSize * minSize == MinSizeSquared(s)
    ensures dist < minSize <==> WithinExclusion(a, b, s)
  {
    if dist < minSize {
      SquareStrictlyMonotone(dist, minSize);
    } else if minSize < dist {
      SquareStrictlyMonotone(minSize, dist);
    }
  }

  lemma SquareStrictlyMonotone(u: real, v: real)
    requires 0.0 <= u < v
    ensures u * u < v * v
  {
    var uu, uv, vv := u * u, u * v, v * v;
    assert uu <= uv;
    assert uv < vv;
  }

  /** Strictness of the test: a point at exactly `min_size` is not too close. */
  lemma BoundaryIsAccepted(a: Point, b: Point, s: Settings)
    requires ValidSettings(s)
    requires SquaredDistance(a, b) as real == MinSizeSquared(s)
    ensures !WithinExclusion(a, b, s)
  {
  }

  /** `too_close`: scan the accepted tiles in order and stop at the first one
      whose centre is strictly closer than `min_size` to `center`. */
  method TooClose(center: Point, tiles: seq<Tile>, s: Settings) returns (close: bool)
    requires ValidSettings(s)
    ensures close <==> TooCloseToAny(center, tiles, s)
    // a corollary of the clause above, kept as a named fact: on no tiles the
    // first candidate is never too close
    ensures tiles == [] ==> !close
  {
    var j := 0;
    while j < |tiles|
      invariant 0 <= j <= |tiles|
      invariant forall k :: 0 <= k < j ==> !WithinExclusion(center, tiles[k].center, s)
    {
      if WithinExclusion(center, tiles[j].center, s) {
        return true;
      }
      j := j + 1;
    }
    return false;
  }

  /** The sampler as a fold over the candidates: `placed` are the tiles accepted
      so far and `need` the loop counter `i`. A candidate too close to an
      accepted tile is skipped; any other is coloured and appended. */
  function Select(s: Settings, placed: seq<Tile>, need: int, cands: seq<Candidate>): (r: Sampled)
    requires ValidSettings(s)
    ensures r.EmptyRange? <==> need > 0 && !NonEmptyCanvas(s)
    ensures r.Placed? ==> if need > 0 then |r.tiles| == |placed| + need else r.tiles == placed
    ensures r.Exhausted? ==> |placed| <= |r.tiles| < |placed| + need
    decreases cands
  {
    if need <= 0 then Placed(placed)
    else if !NonEmptyCanvas(s) then EmptyRange
    else if cands == [] then Exhausted(placed)
    else if TooCloseToAny(cands[0].center, placed, s) then Select(s, placed, need, cands[1..])
    else Select(s, placed + [Tile(RandomColor(cands[0].colorDraw), cands[0].center)], need - 1, cands[1..])
  }

  /** Append-only growth: the tiles accepted before are kept, in order, at the
      front of the result. */
  lemma {:induction false} SelectExtends(s: Settings, placed: seq<Tile>, need: int, cands: seq<Candidate>)
    requires ValidSettings(s)
    ensures var r := Select(s, placed, need, cands);
      !r.EmptyRange? ==> |placed| <= |r.tiles| && r.tiles[..|placed|] == placed
    decreases cands
  {
    if need > 0 && NonEmptyCanvas(s) && cands != [] {
      var next := placed + [Tile(RandomColor(cands[0].colorDraw), cands[0].center)];
      if TooCloseToAny(cands[0].center, placed, s) {
        SelectExtends(s, placed, need, cands[1..]);
      } else {
        SelectExtends(s, next, need - 1, cands[1..]);
        var r := Select(s, next, need - 1, cands[1..]);
        if !r.EmptyRange? {
          assert r.tiles[..|placed|] == r.tiles[..|next|][..|placed|];
        }
      }
    }
  }

  /** Every tile added by the sampler is a supplied candidate, coloured by its
      own colour draw. */
  lemma {:induction false} SelectFromCandidates(s: Settings, placed: seq<Tile>, need: int, cands: seq<Candidate>)
    requires ValidSettings(s)
    ensures var r := Select(s, placed, need, cands);
      !r.EmptyRange? ==> forall j :: |placed| <= j < |r.tiles| ==>
        exists k :: 0 <= k < |cands| && r.tiles[j] == Tile(RandomColor(cands[k].colorDraw), cands[k].center)
    decreases cands
  {
    if need > 0 && NonEmptyCanvas(s) && cands != [] {
      var tail := cands[1..];
      var r := Select(s, placed, need, cands);
      if TooCloseToAny(cands[0].center, placed, s) {
        SelectFromCandidates(s, placed, need, tail);
        forall j | |placed| <= j < |r.tiles|
          ensures exists k :: 0 <= k < |cands| && r.tiles[j] == Tile(RandomColor(cands[k].colorDraw), cands[k].center)
        {
          var k :| 0 <= k < |tail| && r.tiles[j] == Tile(RandomColor(tail[k].colorDraw), tail[k].center);
          assert tail[k] == cands[k + 1];
        }
      } else {
        var t := Tile(RandomColor(cands[0].colorDraw), cands[0].center);
        SelectFromCandidates(s, placed + [t], need - 1, tail);
        SelectExtends(s, placed + [t], need - 1, tail);
        forall j | |placed| <= j < |r.tiles|
          ensures exists k :: 0 <= k < |cands| && r.tiles[j] == Tile(RandomColor(cands[k].colorDraw), cands[k].center)
        {
          if j == |placed| {
            assert r.tiles[j] == r.tiles[..|placed| + 1][j] == t;
          } else {
            var k :| 0 <= k < |tail| && r.tiles[j] == Tile(RandomColor(tail[k].colorDraw), tail[k].center);
            assert tail[k] == cands[k + 1];
          }
        }
      }
    }
  }

  /** When the candidates run out, none of them could have been added: every
      one lies strictly within `min_size` of some tile of the result. The
      greedy choice leaves no supplied point uncovered. */
  lemma {:induction false} ExhaustedCoversCandidates(s: Settings, placed: seq<Tile>, need: int, cands: seq<Candidate>)
    requires ValidSettings(s) && MinSizeSquared(s) > 0.0
    ensures var r := Select(s, placed, need, cands);
      r.Exhausted? ==> forall k :: 0 <= k < |cands| ==> TooCloseToAny(cands[k].center, r.tiles, s)
    decreases cands
  {
    var r := Select(s, placed, need, cands);
    if r.Exhausted? && cands != [] {
      var tail := cands[1..];
      var c := cands[0];
      var next := if TooCloseToAny(c.center, placed, s) then placed
                  else placed + [Tile(RandomColor(c.colorDraw), c.center)];
      var n := if TooCloseToAny(c.center, placed, s) then need else need - 1;
      assert r == Select(s, next, n, tail);
      ExhaustedCoversCandidates(s, next, n, tail);
      SelectExtends(s, next, n, tail);
      assert TooCloseToAny(c.center, next, s) by {
        if !TooCloseToAny(c.center, placed, s) {
          assert next[|placed|].center == c.center;
          assert WithinExclusion(c.center, next[|placed|].center, s);
        }
      }
      assert TooCloseToAny(c.center, r.tiles, s) by {
        var j :| 0 <= j < |next| && WithinExclusion(c.center, next[j].center, s);
        assert r.tiles[j] == r.tiles[..|next|][j] == next[j];
      }
      forall k | 0 <= k < |cands|
        ensures TooCloseToAny(cands[k].center, r.tiles, s)
      {
        if k > 0 {
          assert cands[k] == tail[k - 1];
        }
      }
    }
  }

  /** The first candidate drawn is always accepted: `too_close` on no tiles is
      false. */
  lemma FirstCandidateAccepted(s: Settings, cands: seq<Candidate>)
    requires ValidSettings(s) && s.tiles > 0 && NonEmptyCanvas(s) && cands != []
    ensures var r := Select(s, [], s.tiles, cands);
      !r.EmptyRange? && |r.tiles| >= 1 && r.tiles[0] == Tile(RandomColor(cands[0].colorDraw), cands[0].center)
  {
    var t := Tile(RandomColor(cands[0].colorDraw), cands[0].center);
    assert !TooCloseToAny(cands[0].center, [], s);
    assert [] + [t] == [t];
    SelectExtends(s, [t], s.tiles - 1, cands[1..]);
    var r := Select(s, [t], s.tiles - 1, cands[1..]);
    assert r.tiles[0] == r.tiles[..1][0] == t;
  }

  /** `create_tiles`: draw candidates until `tiles` seeds are accepted. The
      candidates stand for the calls to `random.randint`; the loop also stops
      when they run out. */
  method CreateTiles(s: Settings, cands: seq<Candidate>) returns (r: Sampled)
    requires ValidSettings(s)
    requires forall k :: 0 <= k < |cands| ==> Drawable(cands[k], s)
    ensures r == Select(s, [], s.tiles, cands)
    ensures r.EmptyRange? <==> s.tiles > 0 && !NonEmptyCanvas(s)
    ensures r.Placed? ==> |r.tiles| == if s.tiles > 0 then s.tiles else 0
    ensures r.Exhausted? ==> |r.tiles| < s.tiles
    ensures !r.EmptyRange? ==> Separated(r.tiles, s) && InCanvas(r.tiles, s)
  {
    var tiles: seq<Tile> := [];
    var i := s.tiles;
    var k := 0;
    while i > 0
      invariant 0 <= k <= |cands|
      invariant i + |tiles| == s.tiles
      invariant i < s.tiles ==> NonEmptyCanvas(s)
      invariant Separated(tiles, s) && InCanvas(tiles, s)
      invariant Select(s, tiles, i, cands[k..]) == Select(s, [], s.tiles, cands)
      decreases |cands| - k
    {
      if !NonEmptyCanvas(s) {
        return EmptyRange;
      }
      if k == |cands| {
        return Exhausted(tiles);
      }
      var c := cands[k];
      assert cands[k..][1..] == cands[k + 1..];
      k := k + 1;
      var close := TooClose(c.center, tiles, s);
      if !close {
        var color := RandomColor(c.colorDraw);
        forall j | 0 <= j < |tiles|
          ensures !WithinExclusion(tiles[j].center, c.center, s)
        {
          WithinSymmetric(tiles[j].center, c.center, s);
        }
        tiles := tiles + [Tile(color, c.center)];
        i := i - 1;
      }
    }
    return Placed(tiles);
  }
}
