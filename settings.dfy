/** The run configuration (`Settings`) and the minimum seed separation derived from it. */
module MapSettings {

  datatype Result<T, E> = Ok(value: T) | Err(error: E)

  /** Why building `Settings` fails: the division by the tile count, or the
      square root of a negative ratio. */
  datatype SettingsError = ZeroDivision | MathDomain

  /** Canvas width and height in pixels and the requested number of tiles,
      already parsed to integers. */
  datatype Settings = Settings(width: int, height: int, tiles: int)

  function Min(a: int, b: int): (m: int)
    ensures m <= a && m <= b && (m == a || m == b)
  {
    if a <= b then a else b
  }

  /** `min(width, height) / tiles`, the value whose square root is `min_size`. */
  function Ratio(width: int, height: int, tiles: int): (r: real)
    requires tiles != 0
    ensures r * (tiles as real) == Min(width, height) as real
    ensures r >= 0.0 <==> Min(width, height) == 0 || (Min(width, height) > 0 <==> tiles > 0)
  {
    (Min(width, height) as real) / (tiles as real)
  }

  /** The settings a run can hold: the ones the constructor accepts. */
  predicate ValidSettings(s: Settings) {
    s.tiles != 0 && Ratio(s.width, s.height, s.tiles) >= 0.0
  }

  /** `min_size` squared. */
  function MinSizeSquared(s: Settings): (m: real)
    requires ValidSettings(s)
    ensures m >= 0.0
    ensures m * (s.tiles as real) == Min(s.width, s.height) as real
  {
    Ratio(s.width, s.height, s.tiles)
  }

  /** The constructor `Settings.__init__` on already-parsed integers: it fails
      where the division by `tiles` or the square root fails. */
  function NewSettings(width: int, height: int, tiles: int): (r: Result<Settings, SettingsError>)
    ensures r == Err(ZeroDivision) <==> tiles == 0
    ensures r == Err(MathDomain) <==>
      (tiles > 0 && Min(width, height) < 0) || (tiles < 0 && Min(width, height) > 0)
    ensures r.Ok? ==> r.value == Settings(width, height, tiles) && ValidSettings(r.value)
    ensures width > 0 && height > 0 && tiles > 0 ==> r.Ok? && MinSizeSquared(r.value) > 0.0
  {
    if tiles == 0 then Err(ZeroDivision)
    else if Ratio(width, height, tiles) < 0.0 then Err(MathDomain)
    else Ok(Settings(width, height, tiles))
  }
}
