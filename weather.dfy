/**
  The simulated weather of the time display: the five weather kinds and the
  hourly refresh that draws a new kind and a new temperature.

  `Math.random()` is not modelled as a float: each draw is passed in already
  reduced to its range, i.e. the value of `Math.floor(Math.random() * N)`.
*/
module Weather {

  datatype WeatherKind = Sunny | Cloudy | Rainy | Snowy | Stormy

  /** The array the refresh indexes into, in the source's order. */
  const KINDS: seq<WeatherKind> := [Sunny, Cloudy, Rainy, Snowy, Stormy]

  /** A kind draw is `Math.floor(Math.random() * 5)`. */
  predicate ValidKindDraw(i: int) { 0 <= i < |KINDS| }

  /** A temperature draw is `Math.floor(Math.random() * 30)`. */
  predicate ValidTemperatureDraw(d: int) { 0 <= d < 30 }

  /** The position of a kind in KINDS; it is the one draw that yields that kind. */
  function KindIndex(w: WeatherKind): (i: nat)
    ensures ValidKindDraw(i) && KINDS[i] == w
  {
    match w
    case Sunny => 0
    case Cloudy => 1
    case Rainy => 2
    case Snowy => 3
    case Stormy => 4
  }

  /** The kind chosen by the refresh for a given draw. */
  function KindFromDraw(i: int): (w: WeatherKind)
    requires ValidKindDraw(i)
    ensures KindIndex(w) == i
  {
    KINDS[i]
  }

  /** The temperature chosen by the refresh for a given draw. */
  function TemperatureFromDraw(d: int): (t: int)
    requires ValidTemperatureDraw(d)
    ensures 10 <= t <= 39
  {
    d + 10
  }

  /** Every kind is drawn by exactly one index, so no kind is unreachable or favoured. */
  lemma KindDrawIsBijective(w: WeatherKind, i: int)
    requires ValidKindDraw(i)
    ensures KindFromDraw(KindIndex(w)) == w
    ensures KindFromDraw(i) == w <==> i == KindIndex(w)
  {
  }

  /**
    The reachable temperatures are exactly 10..39: 40 is never produced, even
    though the comment beside the expression speaks of 10 to 40.
  */
  lemma {:induction false} TemperatureRange(t: int)
    ensures (exists d :: ValidTemperatureDraw(d) && TemperatureFromDraw(d) == t) <==> 10 <= t <= 39
  {
    if 10 <= t <= 39 {
      assert ValidTemperatureDraw(t - 10) && TemperatureFromDraw(t - 10) == t;
    }
  }

  /** Each temperature comes from one draw only, so each of the 30 values is equally likely. */
  lemma TemperatureDrawIsInjective(d1: int, d2: int)
    requires ValidTemperatureDraw(d1) && ValidTemperatureDraw(d2)
    ensures TemperatureFromDraw(d1) == TemperatureFromDraw(d2) ==> d1 == d2
  {
  }
}
