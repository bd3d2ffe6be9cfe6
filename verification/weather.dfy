/** WMO weather interpretation codes (WW, WMO code table 4677) as the weather
    service and widget classify them (`src/services/weather.ts`,
    `src/modules/weather/WeatherWidget.tsx`), and the reshaping of the
    Open-Meteo forecast response into the widget's data. */
module Weather {
  import opened Wrappers

  /** `getWeatherDescription`: the Chinese label for a weather code. Each label
      belongs to exactly one band of codes; everything outside the bands is
      "unknown". */
  function Description(code: int): (r: string)
    ensures r == "晴朗" <==> code == 0
    ensures r == "多云" <==> 1 <= code <= 3
    ensures r == "雾" <==> code == 45 || code == 48
    ensures r == "毛毛雨" <==> 51 <= code <= 55
    ensures r == "雨" <==> 61 <= code <= 65
    ensures r == "雪" <==> 71 <= code <= 77
    ensures r == "阵雨" <==> 80 <= code <= 82
    ensures r == "雷暴" <==> 95 <= code <= 99
    ensures r == "未知" <==>
      !(0 <= code <= 3 || code == 45 || code == 48 || 51 <= code <= 55 || 61 <= code <= 65
        || 71 <= code <= 77 || 80 <= code <= 82 || 95 <= code <= 99)
  {
    if code == 0 then "晴朗"
    else if code == 1 || code == 2 || code == 3 then "多云"
    else if code == 45 || code == 48 then "雾"
    else if code >= 51 && code <= 55 then "毛毛雨"
    else if code >= 61 && code <= 65 then "雨"
    else if code >= 71 && code <= 77 then "雪"
    else if code >= 80 && code <= 82 then "阵雨"
    else if code >= 95 && code <= 99 then "雷暴"
    else "未知"
  }

  /** The icons `WeatherIcon` can draw. */
  datatype Icon = Sun | Cloud | CloudFog | CloudRain | CloudSnow | CloudLightning

  /** `WeatherIcon`: the icon for a weather code. Unlike `Description`, the
      rain band runs 51-67, lightning covers every code from 95 up, and all
      other codes, the 80-82 showers included, fall back to the sun. */
  function IconFor(code: int): (r: Icon)
    ensures r == Cloud <==> code == 2 || code == 3
    ensures r == CloudFog <==> code == 45 || code == 48
    ensures r == CloudRain <==> 51 <= code <= 67
    ensures r == CloudSnow <==> 71 <= code <= 77
    ensures r == CloudLightning <==> code >= 95
    ensures r == Sun <==>
      !(2 <= code <= 3 || code == 45 || code == 48 || 51 <= code <= 67 || 71 <= code <= 77 || code >= 95)
  {
    if code == 0 || code == 1 then Sun
    else if code == 2 || code == 3 then Cloud
    else if code == 45 || code == 48 then CloudFog
    else if code >= 51 && code <= 67 then CloudRain
    else if code >= 71 && code <= 77 then CloudSnow
    else if code >= 95 then CloudLightning
    else Sun
  }

  /** The icon and the description disagree on the showers band: the label
      says showers but the icon is the sun. */
  lemma ShowersDrawnAsSun(code: int)
    requires 80 <= code <= 82
    ensures Description(code) == "阵雨" && IconFor(code) == Sun
  {
  }

  /** The `current` block of the Open-Meteo response. Temperatures, wind speed
      and humidity are carried as they come and never computed with. */
  datatype CurrentResponse = CurrentResponse(
    temperature_2m: real, weather_code: int, wind_speed_10m: real, relative_humidity_2m: real)

  /** The `daily` block: parallel arrays indexed by day. */
  datatype DailyResponse = DailyResponse(
    time: seq<string>, weather_code: seq<int>, temperature_2m_max: seq<real>, temperature_2m_min: seq<real>)

  datatype ForecastResponse = ForecastResponse(current: CurrentResponse, daily: DailyResponse)

  datatype Current = Current(temperature: real, weatherCode: int, windSpeed: real, humidity: real)

  /** One day of the forecast. Reading past the end of a JavaScript array gives
      `undefined`, written None here. */
  datatype DailyForecast = DailyForecast(
    date: string, weatherCode: Option<int>, maxTemp: Option<real>, minTemp: Option<real>)

  datatype WeatherData = WeatherData(current: Current, daily: seq<DailyForecast>)

  /** Element `i` of a JavaScript array, `undefined` past its end. */
  function At<T>(s: seq<T>, i: nat): (r: Option<T>)
    ensures i < |s| <==> r.Some?
    ensures i < |s| ==> r.value == s[i]
  {
    if i < |s| then Some(s[i]) else None
  }

  /** The object `fetchWeather` builds from the decoded response. */
  function Reshape(data: ForecastResponse): (r: WeatherData)
    ensures r.current.temperature == data.current.temperature_2m
    ensures r.current.weatherCode == data.current.weather_code
    ensures r.current.windSpeed == data.current.wind_speed_10m
    ensures r.current.humidity == data.current.relative_humidity_2m
    ensures |r.daily| == |data.daily.time|
    ensures forall i :: 0 <= i < |r.daily| ==>
      && r.daily[i].date == data.daily.time[i]
      && r.daily[i].weatherCode == At(data.daily.weather_code, i)
      && r.daily[i].maxTemp == At(data.daily.temperature_2m_max, i)
      && r.daily[i].minTemp == At(data.daily.temperature_2m_min, i)
  {
    var c := data.current;
    var d := data.daily;
    WeatherData(
      Current(c.temperature_2m, c.weather_code, c.wind_speed_10m, c.relative_humidity_2m),
      seq(|d.time|, i requires 0 <= i < |d.time| =>
        DailyForecast(d.time[i], At(d.weather_code, i), At(d.temperature_2m_max, i), At(d.temperature_2m_min, i))))
  }

  /** When the parallel arrays have equal length, every day of the forecast
      is fully defined. */
  lemma ReshapeAlignedArrays(data: ForecastResponse)
    requires |data.daily.weather_code| == |data.daily.time|
    requires |data.daily.temperature_2m_max| == |data.daily.time|
    requires |data.daily.temperature_2m_min| == |data.daily.time|
    ensures forall i :: 0 <= i < |Reshape(data).daily| ==>
      && Reshape(data).daily[i].weatherCode == Some(data.daily.weather_code[i])
      && Reshape(data).daily[i].maxTemp == Some(data.daily.temperature_2m_max[i])
      && Reshape(data).daily[i].minTemp == Some(data.daily.temperature_2m_min[i])
  {
  }
}
