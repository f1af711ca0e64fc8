# Daily time tracker: a Dafny model

The repository is one React component, `TimeDisplay`. It shows how much of the current day has passed and how much is left, as clock text and as a percentage. It also shows a simulated weather readout that changes once an hour, with an icon and a background that depend on the weather, the daylight flag and the colour theme.

This project models the logic of that component:

- `Weather` (weather.dfy): the five weather kinds, the array the hourly refresh indexes into, and the two draws of `updateWeather` (a kind index and a temperature offset). Each draw is passed in already reduced to its range, i.e. as the value of `Math.floor(Math.random() * N)`.
- `ClockFormat` (clock_format.dfy): `formatSeconds` on integer-valued numbers, with JavaScript's integer operators written out. `Math.floor(a / b)` with a positive divisor is `/`. `%` keeps the sign of the dividend (`JsRem`). `toString()` is `IntToString` and `padStart(2, "0")` is `PadStart`. `ParseClock` is an independent reader of `HH:MM:SS` text. It exists to state the round trip `ParseClock(FormatSeconds(n)) == Some(n)`.
- `DayProgress` (day_progress.dfy): the values one tick derives from a clock reading. These are the seconds passed since midnight, the seconds remaining, the exact percentage remaining (a `real`), the daylight flag, and the top-of-hour test that triggers a weather refresh.
- `DayCycle` (day_cycle.dfy): the component state as a class `TimeDisplay`. Its fields are the state hooks. Its constructor is the initial state, and `Tick` and `UpdateWeather` overwrite the fields as the interval callback and `updateWeather` do. `Valid()` is the invariant every state keeps: either the initial state, or all derived fields in agreement with the current clock (`InSync()`), with the temperature in 10..39.
- `Display` (display.dfy): the icon chosen by `getWeatherIcon` and the light or dark background key chosen for the theme.
- `Wrappers` (wrappers.dfy): `Option`, used for the theme (which may be undefined) and for the result of `ParseClock`.

The comment beside the temperature draw (app/time-display.tsx:73) says "between 10 and 40". The expression `Math.floor(Math.random() * 30) + 10` gives 10..39. The model follows the expression, and `Weather.TemperatureRange` proves that 10..39 is exactly the set of reachable temperatures.

## Model

| member | source | states |
|---|---|---|
| Weather.KINDS | app/time-display.tsx:70 | the refresh array lists the five kinds in the source's order; KindIndex and KindDrawIsBijective state that each kind appears at exactly one index |
| Weather.KindIndex | app/time-display.tsx:70-71 | every weather kind sits at a valid index of the refresh array |
| Weather.KindFromDraw | app/time-display.tsx:70-71 | the kind picked by a draw in 0..4 is the one whose index is that draw |
| Weather.KindDrawIsBijective | app/time-display.tsx:70-71 | each kind is picked by exactly one draw, so every kind is reachable |
| Weather.TemperatureFromDraw | app/time-display.tsx:73 | the new temperature lies in 10..39 |
| Weather.TemperatureRange | app/time-display.tsx:73 | a temperature is reachable exactly when it is in 10..39; 40 never is |
| Weather.TemperatureDrawIsInjective | app/time-display.tsx:73 | distinct draws give distinct temperatures |
| Display.IconFor | app/time-display.tsx:76-89 | the sun or the moon shows exactly for sunny weather: the sun by day, the moon by night |
| Display.IconIdentifiesKind | app/time-display.tsx:76-89 | the icon determines the weather kind whatever the daylight flag |
| Display.IconIgnoresDaylight | app/time-display.tsx:76-89 | the daylight flag changes the icon exactly for sunny weather |
| Display.VariantFor | app/time-display.tsx:106 | the dark variant exactly when the theme is "dark"; light for every other theme, undefined included |
| Display.BackgroundFor | app/time-display.tsx:106 | the background key has the current weather kind, and the dark variant exactly for the "dark" theme |
| Display.BackgroundOtherThemesAreLight | app/time-display.tsx:106 | any theme other than "dark" shows the same background as "light" |
| ClockFormat.NatToString | app/time-display.tsx:99 | `toString()` of a non-negative integer is its shortest decimal form: "0" for zero, no leading '0' otherwise, one character below 10 and at most two below 100 |
| ClockFormat.IntToString | app/time-display.tsx:99 | `toString()` is the digits for a non-negative integer, and a minus sign then the digits otherwise |
| ClockFormat.Repeat | app/time-display.tsx:99 | the padding is the fill character repeated the requested number of times |
| ClockFormat.PadStart | app/time-display.tsx:99 | `padStart` returns the longer of the input length and the width, ends with the input, and is the fill character before it |
| ClockFormat.Pad2 | app/time-display.tsx:99 | a padded field of a non-negative number has at least two characters, and exactly two below 100 |
| ClockFormat.Pad2Digits | app/time-display.tsx:99 | a field below 100 is its tens digit then its units digit, with a leading '0' below 10 |
| ClockFormat.JsRem | app/time-display.tsx:97-98 | JavaScript's `%` agrees with the mathematical remainder for a non-negative dividend and is non-positive for a negative one |
| ClockFormat.Hours | app/time-display.tsx:96 | `Math.floor(seconds / 3600)` is the unique whole number of hours with `h*3600 <= seconds < (h+1)*3600` |
| ClockFormat.Minutes | app/time-display.tsx:97 | the minutes field lies in 0..59 for a non-negative input |
| ClockFormat.Secs | app/time-display.tsx:98 | the seconds field lies in 0..59 for a non-negative input |
| ClockFormat.Decomposition | app/time-display.tsx:96-98 | for a non-negative input, hours*3600 + minutes*60 + secs is the input, with minutes and secs below 60 |
| ClockFormat.DigitsValueOfNatToString | app/time-display.tsx:99 | `toString()` writes only digits, and they read back as the number |
| ClockFormat.DigitsValueLeadingZeros | app/time-display.tsx:99 | padding with '0' keeps a digit string's value |
| ClockFormat.Pad2Value | app/time-display.tsx:99 | a padded field is all digits and reads back as the field's value |
| ClockFormat.FormatSeconds | app/time-display.tsx:95-100 | `formatSeconds`; it has no contract of its own: its properties are the lemmas FormatSecondsRoundTrip, FormatSecondsShape, FormatSecondsDigits and FormatFullDay |
| ClockFormat.FormatSecondsRoundTrip | app/time-display.tsx:95-100 | reading back `formatSeconds(n)` gives n for every n >= 0 |
| ClockFormat.FormatSecondsShape | app/time-display.tsx:95-100 | for every n >= 0 the text is `HH:MM:SS`: at least two hour digits, then two-digit minutes and seconds after colons |
| ClockFormat.FieldsRoundTrip | app/time-display.tsx:99 | three fields in range, padded and joined with colons, read back as their total in seconds |
| ClockFormat.FormatSecondsDigits | app/time-display.tsx:95-100 | below 100 hours the text is exactly eight characters: two digits, a colon, two digits, a colon, two digits |
| ClockFormat.FormatFullDay | app/time-display.tsx:95-100 | 86400 seconds is written "24:00:00" |
| DayProgress.SecondsPassed | app/time-display.tsx:49 | the seconds passed since midnight lie in 0..86399 |
| DayProgress.ClockFromSecondsPassed | app/time-display.tsx:49 | splitting the passed seconds as formatSeconds does gives back the clock's hour, minute and second |
| DayProgress.SecondsPassedInjective | app/time-display.tsx:49 | distinct clock readings give distinct passed seconds |
| DayProgress.SecondsPassedOnto | app/time-display.tsx:49 | every second of the day is the passed-seconds value of a valid clock reading |
| DayProgress.SecondsRemaining | app/time-display.tsx:52 | passed plus remaining is 86400, and the remaining seconds lie in 1..86400 |
| DayProgress.PercentRemaining | app/time-display.tsx:55 | the percentage is remaining/864, lies in (0, 100] for a remaining count in 1..86400, and is 100 exactly for 86400 |
| DayProgress.PercentDecreasesThroughTheDay | app/time-display.tsx:52-55 | a later second of the day leaves a strictly smaller percentage |
| DayProgress.FullDayLeftIffNothingPassed | app/time-display.tsx:52-55 | the percentage is 100 exactly when no second has passed |
| DayProgress.PercentFullExactlyAtMidnight | app/time-display.tsx:49-55 | the percentage is 100 exactly at 00:00:00 |
| DayProgress.PercentAtLastSecond | app/time-display.tsx:49-55 | at 23:59:59 the percentage is 1/864 |
| DayProgress.IsDaytime | app/time-display.tsx:58 | the daylight flag: hour at least 6 and below 18; Tick's contract states it as `isDaytime <==> 6 <= hour < 18` and DaytimeBoundaries checks the boundary hours |
| DayProgress.IsTopOfHour | app/time-display.tsx:61 | the refresh condition: minute 0 and second 0; Tick's contract redraws the weather exactly when it holds |
| DayProgress.DaytimeBoundaries | app/time-display.tsx:58 | hour 5 is night, hours 6 and 17 are day, hour 18 is night |
| DayProgress.PassedTimeShowsClock | app/time-display.tsx:136 | the passed time is shown as the clock reading itself, each field padded to two digits, eight characters in all |
| DayProgress.RemainingTimeDisplay | app/time-display.tsx:143 | the remaining time shows as eight characters that read back as the remaining seconds, and as "24:00:00" at midnight |
| DayCycle.TimeDisplay.constructor | app/time-display.tsx:35-41 | the initial state: nothing passed, nothing remaining, 100 percent, daytime, sunny at 20 degrees |
| DayCycle.StartIsNotInSync | app/time-display.tsx:36-37 | before the first tick passed plus remaining is 0, not 86400, so the derived fields do not yet match any clock reading |
| DayCycle.TimeDisplay.UpdateWeather | app/time-display.tsx:69-74 | the weather becomes the drawn kind and the temperature the drawn value in 10..39; nothing else changes |
| DayCycle.TimeDisplay.Tick | app/time-display.tsx:45-63 | the invariant is kept and every derived field agrees with the new clock reading (passed in 0..86399, passed + remaining = 86400, percentage in (0, 100] and 100 exactly at midnight, daytime exactly for hours 6..17); the weather and temperature are redrawn at the top of the hour and unchanged on every other tick |

## Left out

- The React hooks, `useEffect`, and the `setInterval`/`clearInterval` timer (app/time-display.tsx:44-67): they are scheduling. `Tick` is one firing of the timer.
- `new Date()` and the host clock: a tick's hour, minute and second are parameters. The constructor takes the start reading as a parameter too.
- `formatTime` (app/time-display.tsx:91-93): it depends on `toLocaleTimeString` and the locale data of the host.
- `Math.random()` as a float: each draw is an integer already reduced to its range, and the floating-point `floor(r * N)` is not modelled.
- The floating-point presentation: `toFixed(2)`, `100 - remainingPercentage` for the progress bar and its label (app/time-display.tsx:172-186), and the thousands separators of `toLocaleString` (app/time-display.tsx:153, 160). The percentage is the exact rational ratio, not an IEEE double.
- The JSX, the CSS classes, the lucide icon components (modelled only as the enumeration `Icon`), the `next-themes` hook, and the `Switch` that toggles the theme (app/time-display.tsx:102-198).
- The placeholder URL strings of the background table (app/time-display.tsx:11-32): only the choice of a weather kind and a light or dark variant is modelled.
- ClockFormat.FormatSeconds: properties are proved only for non-negative integer inputs. The component only passes such values (0..86399 passed, 0..86400 remaining, 0 being the value before the first tick). Negative or fractional arguments, where JavaScript would write a minus sign or a decimal point into a field, have no proved property.
- ClockFormat.FormatSeconds: the width of JavaScript numbers is not modelled. The model uses unbounded integers and plain digits, while a JavaScript number is an IEEE double: integers above 2^53 are not exact, and `toString()` switches to exponent notation from 1e21. The round trip and shape lemmas are therefore statements about the model for every n >= 0; the component only formats values up to 86400.
