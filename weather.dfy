/** The parse part of `getWeatherData`: the CSV of current measurements, one line per
    weather station with `;`-separated fields, is scanned for the configured station; its
    temperature (field 2), rain (3), global radiation (5), wind (9) and gust (10) are returned
    as sanitised number strings, or five integer zeros when the station has no line. */
module Weather {
  import opened Strings
  import opened Scalars

  /** The values `getWeatherData` returns, in its order. */
  datatype Reading = Reading(temperature: Scalar, rain: Scalar, radiation: Scalar, wind: Scalar, gust: Scalar)

  /** `$components[k]`: a missing field reads as `null`, which the sanitiser turns into "". */
  function Field(components: seq<string>, k: nat): string {
    if k < |components| then components[k] else ""
  }

  function Sanitized(components: seq<string>, k: nat): Scalar {
    Str(SanitizeFloat(Field(components, k)))
  }

  /** The five sanitised fields of a station line. */
  function ReadingOf(components: seq<string>): Reading {
    Reading(Sanitized(components, 2), Sanitized(components, 3), Sanitized(components, 5),
            Sanitized(components, 9), Sanitized(components, 10))
  }

  /** `[0, 0, 0, 0, 0]`. */
  const Defaults: Reading := Reading(Int(0), Int(0), Int(0), Int(0), Int(0))

  /** `strcmp($components[0], WEATHER_STATION_ID) == 0`. */
  predicate IsStationLine(line: string, station: string) {
    Split(line, ';')[0] == station
  }

  /** The index of the first line of the station, if any. */
  function FirstStationLine(lines: seq<string>, station: string): (r: Option<nat>)
    ensures r.None? <==> forall k :: 0 <= k < |lines| ==> !IsStationLine(lines[k], station)
    ensures r.Some? ==> r.value < |lines| && IsStationLine(lines[r.value], station)
    ensures r.Some? ==> forall k :: 0 <= k < r.value ==> !IsStationLine(lines[k], station)
    decreases |lines|
  {
    if lines == [] then None
    else if IsStationLine(lines[0], station) then Some(0)
    else
      var r := FirstStationLine(lines[1..], station);
      assert forall k :: 1 <= k < |lines| ==> lines[k] == lines[1..][k - 1];
      if r.None? then None else Some(r.value + 1)
  }

  /** What `getWeatherData` returns for the CSV text. */
  function WeatherOf(csv: string, station: string): Reading {
    var lines := Split(csv, '\n');
    match FirstStationLine(lines, station)
    case None => Defaults
    case Some(k) => ReadingOf(Split(lines[k], ';'))
  }

  /** The `foreach` over the lines, returning at the first line of the station. */
  method WeatherData(csv: string, station: string) returns (reading: Reading)
    ensures reading == WeatherOf(csv, station)
  {
    var lines := Split(csv, '\n');
    for i := 0 to |lines|
      invariant forall k :: 0 <= k < i ==> !IsStationLine(lines[k], station)
    {
      var components := Split(lines[i], ';');
      if components[0] == station {
        assert IsStationLine(lines[i], station);
        assert FirstStationLine(lines, station) == Some(i);
        return ReadingOf(components);
      }
    }
    assert FirstStationLine(lines, station).None?;
    return Defaults;
  }

  predicate IsNumberText(v: Scalar) {
    v.Str? && forall k :: 0 <= k < |v.s| ==> IsFloatChar(v.s[k])
  }

  /** Either all five values are number texts, or all five are the integer 0, and the latter
      exactly when no line belongs to the station. */
  lemma WeatherValues(csv: string, station: string)
    ensures var r := WeatherOf(csv, station);
            (r == Defaults <==> forall k :: 0 <= k < |Split(csv, '\n')| ==> !IsStationLine(Split(csv, '\n')[k], station))
            && (r != Defaults ==> IsNumberText(r.temperature) && IsNumberText(r.rain) && IsNumberText(r.radiation)
                                  && IsNumberText(r.wind) && IsNumberText(r.gust))
  {
  }

  /** A CSV assembled from lines (the station's first line built from its fields) yields that
      line's numbers unchanged: the line and field splits undo the joins. */
  lemma {:induction false} StationLineRead(lines: seq<string>, k: nat, fields: seq<string>, station: string)
    requires k < |lines| && |fields| >= 11
    requires forall j :: 0 <= j < |lines| ==> '\n' !in lines[j]
    requires forall j :: 0 <= j < |fields| ==> ';' !in fields[j]
    requires lines[k] == Join(fields, ';') && fields[0] == station
    requires forall j :: 0 <= j < k ==> Split(lines[j], ';')[0] != station
    requires forall j :: j in {2, 3, 5, 9, 10} ==> forall c :: c in fields[j] ==> IsFloatChar(c)
    ensures WeatherOf(Join(lines, '\n'), station)
         == Reading(Str(fields[2]), Str(fields[3]), Str(fields[5]), Str(fields[9]), Str(fields[10]))
  {
    SplitJoin(lines, '\n');
    SplitJoin(fields, ';');
    assert FirstStationLine(lines, station) == Some(k);
    SanitizeFloatKeeps(fields[2]);
    SanitizeFloatKeeps(fields[3]);
    SanitizeFloatKeeps(fields[5]);
    SanitizeFloatKeeps(fields[9]);
    SanitizeFloatKeeps(fields[10]);
  }
}
