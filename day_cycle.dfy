/**
  The state of the time-display component and its once-a-second tick.

  The component keeps its state in six setters' worth of fields plus the
  current time. The scheduler (an interval timer) is not modelled: the
  clock reading and the two random draws of a tick are its parameters.
*/
module DayCycle {
  import opened Weather
  import opened DayProgress

  class TimeDisplay {
    var currentTime: Clock
    var passedSeconds: int
    var remainingSeconds: int
    var remainingPercentage: real
    var isDaytime: bool
    var weather: WeatherKind
    var temperature: int

    /** The derived fields before the first tick. */
    ghost predicate AtStart()
      reads this
    {
      passedSeconds == 0 && remainingSeconds == 0 && remainingPercentage == 100.0 && isDaytime
    }

    /** The derived fields agree with the current time, as every tick leaves them. */
    ghost predicate InSync()
      reads this
    {
      ValidClock(currentTime.hour, currentTime.minute, currentTime.second)
      && passedSeconds == SecondsPassed(currentTime.hour, currentTime.minute, currentTime.second)
      && remainingSeconds == SecondsRemaining(passedSeconds)
      && remainingPercentage == PercentRemaining(remainingSeconds)
      && isDaytime == IsDaytime(currentTime.hour)
    }

    /** The invariant every state of the component satisfies. */
    ghost predicate Valid()
      reads this
    {
      (AtStart() || InSync()) && 10 <= temperature <= 39
    }

    /** The initial state: nothing derived yet, sunny at 20 degrees. */
    constructor (start: Clock)
      ensures currentTime == start
      ensures passedSeconds == 0 && remainingSeconds == 0 && remainingPercentage == 100.0
      ensures isDaytime && weather == Sunny && temperature == 20
      ensures Valid() && AtStart()
    {
      currentTime := start;
      passedSeconds := 0;
      remainingSeconds := 0;
      remainingPercentage := 100.0;
      isDaytime := true;
      weather := Sunny;
      temperature := 20;
    }

    /** `updateWeather`: draw a new weather kind and a new temperature. */
    method UpdateWeather(kindDraw: int, temperatureDraw: int)
      requires ValidKindDraw(kindDraw) && ValidTemperatureDraw(temperatureDraw)
      modifies this`weather, this`temperature
      ensures weather == KindFromDraw(kindDraw) && temperature == TemperatureFromDraw(temperatureDraw)
      ensures 10 <= temperature <= 39
    {
      weather := KINDS[kindDraw];
      temperature := temperatureDraw + 10;
    }

    /**
      One tick: store the clock reading, recompute the derived fields from it
      and, on the first second of an hour, refresh the weather.
    */
    method Tick(hour: int, minute: int, second: int, kindDraw: int, temperatureDraw: int)
      requires Valid()
      requires ValidClock(hour, minute, second)
      requires ValidKindDraw(kindDraw) && ValidTemperatureDraw(temperatureDraw)
      modifies this
      ensures Valid() && InSync()
      ensures currentTime == Clock(hour, minute, second)
      ensures passedSeconds == hour * 3600 + minute * 60 + second
      ensures 0 <= passedSeconds < SECONDS_PER_DAY
      ensures passedSeconds + remainingSeconds == SECONDS_PER_DAY
      ensures 0.0 < remainingPercentage <= 100.0
      ensures remainingPercentage == 100.0 <==> hour == 0 && minute == 0 && second == 0
      ensures isDaytime <==> 6 <= hour < 18
      ensures IsTopOfHour(minute, second) ==>
        weather == KindFromDraw(kindDraw) && temperature == TemperatureFromDraw(temperatureDraw)
      ensures !IsTopOfHour(minute, second) ==>
        weather == old(weather) && temperature == old(temperature)
    {
      currentTime := Clock(hour, minute, second);
      var secondsPassed := hour * 3600 + minute * 60 + second;
      passedSeconds := secondsPassed;
      assert secondsPassed == SecondsPassed(hour, minute, second);
      var secondsRemaining := 86400 - secondsPassed;
      remainingSeconds := secondsRemaining;
      var percentageRemaining := (secondsRemaining as real / 86400.0) * 100.0;
      assert percentageRemaining == PercentRemaining(secondsRemaining);
      remainingPercentage := percentageRemaining;
      isDaytime := hour >= 6 && hour < 18;
      PercentFullExactlyAtMidnight(hour, minute, second);
      assert InSync();
      if minute == 0 && second == 0 {
        UpdateWeather(kindDraw, temperatureDraw);
      }
    }
  }

  /** Before the first tick the passed and remaining seconds do not add up to a day. */
  lemma StartIsNotInSync(t: TimeDisplay)
    requires t.AtStart()
    ensures t.passedSeconds + t.remainingSeconds == 0
    ensures !t.InSync()
  {
  }
}
