# Random Voronoi map: the seed sampler

RandomVoronoiMap draws a map by scattering seed points on a `width × height`
canvas, giving each seed a colour and handing the seeds to a Voronoi library
that draws one region per seed. This project models the part of `src/Main.py`
that places the seeds:

- `Settings` turns the parsed width, height and tile count into the minimum
  separation `min_size = sqrt(min(width, height) / tiles)` (module `MapSettings`).
- `get_euclidean` is the distance between two points (module `Geometry`).
- `get_random_color` maps a draw of `randint(0, 10)` to one of three named
  pygame colours (module `Palette`).
- `too_close` scans the accepted tiles for one whose centre lies strictly
  closer than `min_size` to a candidate. `create_tiles` is the greedy
  rejection loop that draws integer points and keeps those that are not too
  close, until `tiles` seeds are placed (module `Sampler`).

How the model stands in for what Dafny cannot express directly:

- **Square roots.** `min_size` and the distance are kept squared and exact.
  `MinSizeSquared` is the real number `min(width, height) / tiles`, and the
  exclusion test is `dx² + dy² < min_size²`. `SquaredTestMatchesRoots` proves
  this agrees with the source's `get_euclidean(...) < min_size` for any
  non-negative square roots. `WithinExclusion` states that with
  `tiles > 0` it is the integer test `(dx² + dy²) · tiles < min(width, height)`.
  This is an idealisation of the floating-point comparison: rounding is not
  modelled.
- **Randomness.** The calls to `random.randint` become input. `CreateTiles`
  receives a finite sequence of `Candidate`s. Each candidate is the point drawn
  by the two coordinate calls plus the colour draw that is used if the point is
  accepted. Each candidate must lie in `randint`'s inclusive ranges.
- **Termination.** The source loop has no attempt cap and can run forever on an
  over-constrained request. The model stops when the candidates run out, with
  `Exhausted(tiles)` holding the seeds placed so far. It does not claim that the
  source loop terminates.
- **Errors.** `Settings` fails with `ZeroDivisionError` when `tiles == 0` and
  with `ValueError` from `math.sqrt` when the ratio is negative
  (`NewSettings` returns `Err(ZeroDivision)` or `Err(MathDomain)`).
  `randint(0, width - 1)` raises `ValueError` on a canvas side of 0 or less
  when the loop runs (`EmptyRange`). A negative tile count with
  `min(width, height) <= 0` is accepted by the source, and the loop then
  returns no tiles. The model does the same.

`Select` is the reference definition of the sampler as a fold over the
candidates. `CreateTiles` is the loop itself, which calls the `TooClose` scan.
The loop is proved equal to `Select`. Its invariants state the counter
relation `i + |tiles| == tiles`, pairwise separation and that seeds stay on the
canvas.

## Model

| member | source | states |
|---|---|---|
| `Geometry.SquaredDistance` | src/Main.py:65-66 | the squared distance is non-negative and is zero exactly when the two points are equal |
| `Geometry.DistanceSymmetric` | src/Main.py:65-66 | the distance is the same in both argument orders |
| `MapSettings.Ratio` | src/Main.py:17 | `min(width, height) / tiles` times `tiles` gives back `min(width, height)`; the ratio is non-negative exactly when `min(width, height)` is 0 or has the sign of `tiles` (so `math.sqrt` accepts it) |
| `MapSettings.MinSizeSquared` | src/Main.py:17 | for valid settings `min_size²` is non-negative and `min_size² · tiles == min(width, height)` |
| `MapSettings.NewSettings` | src/Main.py:13-17 | construction fails with a division error exactly when `tiles == 0`, and with a square-root domain error exactly when `min(width, height)` and `tiles` have strictly opposite signs; otherwise it keeps the three integers; with positive width, height and tiles it succeeds and `min_size² > 0` |
| `Palette.RandomColor` | src/Main.py:34-43 | draws up to 6 give yellowgreen, 7 and 8 give darkgreen, 9 and above give royalblue, each as an if-and-only-if |
| `Palette.ColorWeights` | src/Main.py:35-43 | of the 11 draws `0..10`, exactly 7 give yellowgreen, 2 give darkgreen and 2 give royalblue |
| `Sampler.SquaredTestMatchesRoots` | src/Main.py:29 | for non-negative roots of the squared distance and of `min_size²`, the source's `distance < min_size` holds exactly when the model's squared test holds |
| `Sampler.WithinExclusion` | src/Main.py:29 | the test `get_euclidean(a, b) < min_size` on squares: with `tiles > 0` the test is `(dx² + dy²) · tiles < min(width, height)`; with `tiles < 0` the inequality flips |
| `Sampler.BoundaryIsAccepted` | src/Main.py:29 | the comparison is strict: a point at exactly `min_size` is not too close |
| `Sampler.WithinSymmetric` | src/Main.py:29 | the exclusion test is symmetric in the two points |
| `Sampler.TooClose` | src/Main.py:27-31 | the scan returns true exactly when some accepted tile's centre is strictly within `min_size` of the candidate; on no tiles it returns false |
| `Sampler.Select` | src/Main.py:89-98 | the fold fails with an empty range exactly when seeds are still needed on an empty canvas side; on normal exit it has placed exactly `need` more seeds when `need > 0`, and none otherwise; when the candidates run out it has placed fewer |
| `Sampler.SelectExtends` | src/Main.py:94-97 | append-only growth: the tiles accepted earlier stay, in order, at the front of the result |
| `Sampler.SelectFromCandidates` | src/Main.py:92-96 | every added tile is one of the supplied candidate points, coloured by that candidate's own colour draw |
| `Sampler.ExhaustedCoversCandidates` | src/Main.py:91-97 | when the candidates run out, every candidate lies strictly within `min_size` of some accepted tile, so the greedy choice left none addable |
| `Sampler.FirstCandidateAccepted` | src/Main.py:28-31 | with seeds to place on a non-empty canvas, the first candidate is always accepted and becomes the first tile |
| `Sampler.CreateTiles` | src/Main.py:88-98 | the loop computes `Select` over the candidates; it fails exactly on an empty canvas side with seeds to place; on normal exit it returns exactly `tiles` seeds (none when `tiles <= 0`); every pair of distinct seeds is at least `min_size` apart and every centre satisfies `0 <= x <= width-1`, `0 <= y <= height-1` |

## Left out

- `calculate_voronoi_diagram` (src/Main.py:46-62) is a wrapper around the external `foronoi` library and a `matplotlib` backend switch. It is not modelled.
- `create_image` (src/Main.py:69-85) draws the regions with `pygame` and saves a PNG file. This is rendering and file I/O, so it is not modelled.
- `main` and the `argv` parsing in `Settings`, meaning the `int(...)` conversions and the `show_centers` string test at line 18, are configuration plumbing. `Settings` takes already-parsed integers, and `show_centers` is used only for rendering.
- `Palette.Color`: the three named pygame colours are kept as names, not as RGB values.
- The `random` module is not modelled. Its results are supplied as `Candidate`s.
- `Sampler.CreateTiles`: the source's random stream is not modelled call by call. The colour draw is read only when a point is accepted, as in the source. A rejected candidate's colour draw is simply never used, rather than being absent from a shared stream.
- `Sampler.CreateTiles`: termination of the unbounded loop at line 91 is not modelled. The model stops when the candidates run out and reports `Exhausted`. The source would keep drawing.
- `Sampler.TooClose` compares exact squares, not floating-point square roots. Rounding near the boundary `distance == min_size` is not modelled.
- Floating-point overflow and precision loss in `min(width, height) / tiles` are not modelled.
