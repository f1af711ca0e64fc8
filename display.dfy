/**
  The display selection rules: which icon shows the weather, and which of the
  two background variants is picked for the current theme.
*/
module Display {
  import opened Wrappers
  import opened Weather

  /** The icon components the weather readout can show. */
  datatype Icon = Sun | Moon | Cloud | CloudRain | CloudSnow | CloudLightning

  /** The weather icon: sunny shows the sun by day and the moon by night; every other kind has a fixed icon. */
  function IconFor(w: WeatherKind, isDaytime: bool): (icon: Icon)
    ensures (icon == Sun || icon == Moon) <==> w == Sunny
    ensures icon == Sun <==> w == Sunny && isDaytime
    ensures icon == Moon <==> w == Sunny && !isDaytime
  {
    match w
    case Sunny => if isDaytime then Sun else Moon
    case Cloudy => Cloud
    case Rainy => CloudRain
    case Snowy => CloudSnow
    case Stormy => CloudLightning
  }

  /** The weather kind an icon stands for. */
  function KindOfIcon(icon: Icon): WeatherKind
  {
    match icon
    case Sun => Sunny
    case Moon => Sunny
    case Cloud => Cloudy
    case CloudRain => Rainy
    case CloudSnow => Snowy
    case CloudLightning => Stormy
  }

  /** The icon always identifies the weather kind, whatever the daylight flag. */
  lemma IconIdentifiesKind(w: WeatherKind, isDaytime: bool)
    ensures KindOfIcon(IconFor(w, isDaytime)) == w
  {
  }

  /** Only sunny weather depends on the daylight flag. */
  lemma IconIgnoresDaylight(w: WeatherKind)
    ensures IconFor(w, true) == IconFor(w, false) <==> w != Sunny
  {
  }

  /** The two background variants each weather kind has. */
  datatype Variant = Light | Dark

  /** The key into the background table: a weather kind and a variant. */
  datatype BackgroundKey = BackgroundKey(kind: WeatherKind, variant: Variant)

  /**
    The background variant for a theme. The theme is a string that may be
    undefined; only the exact value "dark" selects the dark variant.
  */
  function VariantFor(theme: Option<string>): (v: Variant)
    ensures v == Dark <==> theme == Some("dark")
    ensures v == Light <==> theme != Some("dark")
  {
    if theme == Some("dark") then Dark else Light
  }

  /** The background entry the card shows for the current weather and theme. */
  function BackgroundFor(w: WeatherKind, theme: Option<string>): (k: BackgroundKey)
    ensures k.kind == w
    ensures k.variant == Dark <==> theme == Some("dark")
  {
    BackgroundKey(w, VariantFor(theme))
  }

  /** Every theme that is not "dark", undefined included, shows the same background as "light". */
  lemma BackgroundOtherThemesAreLight(w: WeatherKind, theme: Option<string>)
    requires theme != Some("dark")
    ensures BackgroundFor(w, theme) == BackgroundFor(w, Some("light"))
  {
  }
}
