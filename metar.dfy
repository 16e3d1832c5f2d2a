/** One observation as the sketch decodes it (main.cpp:78-88, 98) and the
    five text rows it draws for it (main.cpp:91-106). Every field is the
    result of `parse` on the response body, so decoding never fails; the
    gust branch is chosen by whether "gust" occurs anywhere in the body. */
module Metar {
  import opened ArduinoString
  import opened TagParse

  /** The fields drawn on the display. `altimeter` is the already formatted
      altimeter text; `hasGust` records `input.indexOf("gust") != -1`. */
  datatype Observation = Observation(
    observationTime: string,
    dewpointC: string,
    tempC: string,
    windDirDegrees: string,
    windSpeedKt: string,
    windGustKt: string,
    flightCategory: string,
    altimeter: string,
    visibilityStatuteMi: string,
    hasGust: bool)

  /** One `drawString(0, y, text)` call: every row starts at x = 0. */
  datatype Row = Row(y: int, text: string)

  const StationId: string := "KPSM"
  /** The station is hard-coded in the request URL and in the header row. */
  const HeaderPrefix: string := StationId + " METAR "

  /** Decodes a response body. `showAltimeter` stands for the library's
      `toFloat`, `round(x*1000)/1000` and `String(float)` applied to the
      `altim_in_hg` text. */
  function Decode(body: string, showAltimeter: string -> string): (o: Observation)
    ensures o.hasGust <==> exists k :: OccursAt(body, "gust", k)
  {
    var r := Observation(
      Parse(body, "observation_time"),
      Parse(body, "dewpoint_c"),
      Parse(body, "temp_c"),
      Parse(body, "wind_dir_degrees"),
      Parse(body, "wind_speed_kt"),
      Parse(body, "wind_gust_kt"),
      Parse(body, "flight_category"),
      showAltimeter(Parse(body, "altim_in_hg")),
      Parse(body, "visibility_statute_mi"),
      IndexOf(body, "gust") != -1);
    IndexOfAbsent(body, "gust");
    r
  }

  /** "KPSM METAR " + observation_time.substring(11): the date part of the
      timestamp (its first 11 characters) is dropped; a shorter timestamp
      leaves the header bare. */
  function HeaderRow(observationTime: string): (r: string)
    ensures |observationTime| >= 11 ==> r == HeaderPrefix + observationTime[11..]
    ensures |observationTime| < 11 ==> r == HeaderPrefix
  {
    HeaderPrefix + SubstringFrom(observationTime, 11)
  }

  /** "Temp: " + temp_c + "  Dewpt: " + dewpoint_c: both values can be read
      back from the row at fixed offsets around the labels. */
  function TempRow(tempC: string, dewpointC: string): (r: string)
    ensures |r| == 15 + |tempC| + |dewpointC|
    ensures r[..6] == "Temp: " && r[6..6 + |tempC|] == tempC
    ensures r[6 + |tempC|..15 + |tempC|] == "  Dewpt: " && r[15 + |tempC|..] == dewpointC
  {
    "Temp: " + tempC + "  Dewpt: " + dewpointC
  }

  /** The wind row: "Wind: " + dir + " at " + speed, then "G" + gust when
      the gust branch is taken, then " kt". */
  function WindRow(dir: string, speed: string, gust: string, hasGust: bool): (r: string)
    ensures |r| == 13 + |dir| + |speed| + (if hasGust then 1 + |gust| else 0)
    ensures r[..6] == "Wind: " && r[6..6 + |dir|] == dir
    ensures r[6 + |dir|..10 + |dir|] == " at " && r[10 + |dir|..10 + |dir| + |speed|] == speed
    ensures r[|r| - 3..] == " kt"
    ensures hasGust ==> r[10 + |dir| + |speed|..|r| - 3] == "G" + gust
  {
    if hasGust then "Wind: " + dir + " at " + speed + "G" + gust + " kt"
    else "Wind: " + dir + " at " + speed + " kt"
  }

  /** "Visibility: " + visibility_statute_mi + " mi". */
  function VisibilityRow(visibility: string): (r: string)
    ensures |r| == 15 + |visibility|
    ensures r[..12] == "Visibility: " && r[12..|r| - 3] == visibility && r[|r| - 3..] == " mi"
  {
    "Visibility: " + visibility + " mi"
  }

  /** "Altimeter: " + altimeter + six spaces + flight_category. */
  function AltimeterRow(altimeter: string, flightCategory: string): (r: string)
    ensures |r| == 17 + |altimeter| + |flightCategory|
    ensures r[..11] == "Altimeter: " && r[11..11 + |altimeter|] == altimeter
    ensures r[11 + |altimeter|..17 + |altimeter|] == "      " && r[17 + |altimeter|..] == flightCategory
  {
    "Altimeter: " + altimeter + "      " + flightCategory
  }

  /** The frame drawn for one observation: five rows, 12 pixels apart. */
  function Render(o: Observation): (f: seq<Row>)
    ensures |f| == 5
    ensures forall k :: 0 <= k < |f| ==> f[k].y == 12 * k
    ensures f[0].text == HeaderRow(o.observationTime)
    ensures f[1].text == TempRow(o.tempC, o.dewpointC)
    ensures f[2].text == WindRow(o.windDirDegrees, o.windSpeedKt, o.windGustKt, o.hasGust)
    ensures f[3].text == VisibilityRow(o.visibilityStatuteMi)
    ensures f[4].text == AltimeterRow(o.altimeter, o.flightCategory)
  {
    [Row(0, HeaderRow(o.observationTime)),
     Row(12, TempRow(o.tempC, o.dewpointC)),
     Row(24, WindRow(o.windDirDegrees, o.windSpeedKt, o.windGustKt, o.hasGust)),
     Row(36, VisibilityRow(o.visibilityStatuteMi)),
     Row(48, AltimeterRow(o.altimeter, o.flightCategory))]
  }

  /** The frame drawn for a response body: which element feeds which row. */
  function Frame(body: string, showAltimeter: string -> string): (f: seq<Row>)
    ensures |f| == 5
    ensures forall k :: 0 <= k < |f| ==> f[k].y == 12 * k
    ensures f[0].text == HeaderRow(Parse(body, "observation_time"))
    ensures f[1].text == TempRow(Parse(body, "temp_c"), Parse(body, "dewpoint_c"))
    ensures f[2].text == WindRow(Parse(body, "wind_dir_degrees"), Parse(body, "wind_speed_kt"),
                                 Parse(body, "wind_gust_kt"), !Absent(body, "gust"))
    ensures f[3].text == VisibilityRow(Parse(body, "visibility_statute_mi"))
    ensures f[4].text == AltimeterRow(showAltimeter(Parse(body, "altim_in_hg")), Parse(body, "flight_category"))
  {
    Render(Decode(body, showAltimeter))
  }

  /** Without the gust branch the gust value never reaches the display. */
  lemma WindRowIgnoresGust(dir: string, speed: string, gust1: string, gust2: string)
    ensures WindRow(dir, speed, gust1, false) == WindRow(dir, speed, gust2, false)
  {
  }

  /** A body holding a `wind_gust_kt` element always takes the gust branch,
      since the tag name itself contains "gust". */
  lemma GustTagSelectsGustBranch(body: string, showAltimeter: string -> string)
    requires !Absent(body, OpenTag("wind_gust_kt"))
    ensures Decode(body, showAltimeter).hasGust
  {
    var k :| 0 <= k <= |body| && OccursAt(body, OpenTag("wind_gust_kt"), k);
    GustInsideTag(body, k);
  }

  /** The opening `wind_gust_kt` marker holds "gust" six characters in. */
  lemma GustInsideTag(body: string, k: int)
    requires 0 <= k && OccursAt(body, OpenTag("wind_gust_kt"), k)
    ensures OccursAt(body, "gust", k + 6)
  {
    assert body[k..k + 14] == "<wind_gust_kt>";
    assert "<wind_gust_kt>"[6..10] == "gust";
    OccursInSlice(body, k, k + 14, "gust", k + 6);
  }

  /** A body with no "gust" anywhere draws the plain wind row, whatever a
      `wind_gust_kt` element would have said. */
  lemma NoGustPlainWindRow(body: string, showAltimeter: string -> string)
    requires Absent(body, "gust")
    ensures Frame(body, showAltimeter)[2].text
         == "Wind: " + Parse(body, "wind_dir_degrees") + " at " + Parse(body, "wind_speed_kt") + " kt"
  {
    IndexOfAbsent(body, "gust");
  }

  /** A body with a `wind_gust_kt` element draws the gust row: direction,
      speed, "G" and the gust value, then " kt". */
  lemma GustTagWindRow(body: string, showAltimeter: string -> string)
    requires !Absent(body, OpenTag("wind_gust_kt"))
    ensures Frame(body, showAltimeter)[2].text
         == "Wind: " + Parse(body, "wind_dir_degrees") + " at " + Parse(body, "wind_speed_kt")
            + "G" + Parse(body, "wind_gust_kt") + " kt"
  {
    GustTagSelectsGustBranch(body, showAltimeter);
  }

  /** "gust" anywhere selects the gust branch even without a gust element:
      the body "gust" yields the wind row "Wind:  at G kt". */
  lemma GustWordOutsideTag(showAltimeter: string -> string)
    ensures Absent("gust", OpenTag("wind_gust_kt"))
    ensures Frame("gust", showAltimeter)[2].text == "Wind:  at G kt"
  {
    var o := Decode("gust", showAltimeter);
    assert OccursAt("gust", "gust", 0);
    assert o.hasGust;
    assert o.windDirDegrees == Parse("gust", "wind_dir_degrees") == "";
    assert o.windSpeedKt == Parse("gust", "wind_speed_kt") == "";
    assert o.windGustKt == Parse("gust", "wind_gust_kt") == "";
    assert WindRow("", "", "", true) == "Wind:  at G kt";
  }

  /** The date prefix of an ISO-8601 timestamp is cut from the header. */
  lemma HeaderExample()
    ensures HeaderRow("2024-01-01T14:32Z") == "KPSM METAR 14:32Z"
    ensures HeaderRow("14:32Z") == "KPSM METAR "
  {
    assert "2024-01-01T14:32Z"[11..] == "14:32Z";
  }

  /** A report of eight elements with no gust element. */
  const SampleReport: seq<Field> := [
    Field("observation_time", "2024-01-01T14:32Z"),
    Field("temp_c", "5.0"),
    Field("dewpoint_c", "2.0"),
    Field("wind_dir_degrees", "270"),
    Field("wind_speed_kt", "10"),
    Field("flight_category", "VFR"),
    Field("altim_in_hg", "30.001"),
    Field("visibility_statute_mi", "10")]

  /** A tag name of lower-case letters and underscores. */
  predicate LowerName(name: string)
  {
    forall i :: 0 <= i < |name| ==> 'a' <= name[i] <= 'z' || name[i] == '_'
  }

  lemma LowerNamePlain(name: string)
    requires LowerName(name)
    ensures PlainName(name)
  {
  }

  /** The sample report's tag names, each a lower-case identifier. */
  lemma SampleNamesLower()
    ensures LowerName("observation_time") && LowerName("temp_c") && LowerName("dewpoint_c")
    ensures LowerName("wind_dir_degrees") && LowerName("wind_speed_kt")
    ensures LowerName("flight_category") && LowerName("altim_in_hg")
    ensures LowerName("visibility_statute_mi")
  {
  }

  /** The sample report's texts hold no markup. */
  lemma SampleTextsPlain()
    ensures '<' !in "2024-01-01T14:32Z" && '<' !in "5.0" && '<' !in "2.0" && '<' !in "270"
    ensures '<' !in "10" && '<' !in "VFR" && '<' !in "30.001"
  {
  }

  /** The sample report's fields are plain. */
  lemma SampleReportPlain()
    ensures PlainFields(SampleReport)
  {
    SampleNamesLower();
    SampleTextsPlain();
    forall k | 0 <= k < |SampleReport|
      ensures PlainName(SampleReport[k].name)
    {
      LowerNamePlain(SampleReport[k].name);
    }
  }

  /** The sample report's tag names are distinct: only two of them share a length. */
  lemma SampleReportDistinct()
    ensures forall k, m :: 0 <= m < k < |SampleReport| ==> SampleReport[m].name != SampleReport[k].name
  {
    assert "observation_time" != "wind_dir_degrees";
  }

  /** The sample report is far shorter than 2^32 characters. */
  lemma SampleReportShort()
    ensures |Document(SampleReport)| < U32
  {
  }

  lemma SampleReportParses(k: int)
    requires 0 <= k < |SampleReport|
    ensures Parse(Document(SampleReport), SampleReport[k].name) == SampleReport[k].text
  {
    SampleReportPlain();
    SampleReportDistinct();
    SampleReportShort();
    ParseDocument(SampleReport, k);
  }

  /** No tag name of the sample report spells "gust". */
  lemma SampleNamesNoGust()
    ensures Absent("observation_time", "gust") && Absent("temp_c", "gust") && Absent("dewpoint_c", "gust")
    ensures Absent("wind_dir_degrees", "gust") && Absent("wind_speed_kt", "gust")
    ensures Absent("flight_category", "gust") && Absent("altim_in_hg", "gust")
    ensures Absent("visibility_statute_mi", "gust")
  {
    AbsentByChar("observation_time", "gust", 0);
    AbsentByChar("temp_c", "gust", 0);
    AbsentByChar("dewpoint_c", "gust", 0);
    AbsentByChar("wind_dir_degrees", "gust", 1);
    AbsentByChar("wind_speed_kt", "gust", 0);
    AbsentByChar("flight_category", "gust", 1);
    AbsentByChar("altim_in_hg", "gust", 1);
    AbsentByChar("visibility_statute_mi", "gust", 0);
  }

  /** No text of the sample report spells "gust". */
  lemma SampleTextsNoGust()
    ensures Absent("2024-01-01T14:32Z", "gust") && Absent("5.0", "gust") && Absent("2.0", "gust")
    ensures Absent("270", "gust") && Absent("10", "gust") && Absent("VFR", "gust") && Absent("30.001", "gust")
  {
    AbsentByChar("2024-01-01T14:32Z", "gust", 0);
    AbsentByChar("5.0", "gust", 0);
    AbsentByChar("2.0", "gust", 0);
    AbsentByChar("270", "gust", 0);
    AbsentByChar("10", "gust", 0);
    AbsentByChar("VFR", "gust", 0);
    AbsentByChar("30.001", "gust", 0);
  }

  /** Nothing in the sample report spells "gust". */
  lemma SampleReportHasNoGust()
    ensures Absent(Document(SampleReport), "gust")
  {
    SampleNamesNoGust();
    SampleTextsNoGust();
    DocumentAbsentPlain(SampleReport, "gust");
  }

  /** The sample report decodes field by field into the texts it encloses,
      and without the gust branch. */
  lemma SampleReportDecodes(showAltimeter: string -> string)
    ensures var o := Decode(Document(SampleReport), showAltimeter);
      o.observationTime == "2024-01-01T14:32Z" && o.tempC == "5.0" && o.dewpointC == "2.0"
      && o.windDirDegrees == "270" && o.windSpeedKt == "10" && o.flightCategory == "VFR"
      && o.altimeter == showAltimeter("30.001") && o.visibilityStatuteMi == "10" && !o.hasGust
  {
    SampleReportHasNoGust();
    SampleReportParses(0);
    SampleReportParses(1);
    SampleReportParses(2);
    SampleReportParses(3);
    SampleReportParses(4);
    SampleReportParses(5);
    SampleReportParses(6);
    SampleReportParses(7);
  }

  /** The rows drawn for the observation the sample report decodes to. */
  lemma SampleRender(o: Observation, showAltimeter: string -> string)
    requires o.observationTime == "2024-01-01T14:32Z" && o.tempC == "5.0" && o.dewpointC == "2.0"
    requires o.windDirDegrees == "270" && o.windSpeedKt == "10" && o.flightCategory == "VFR"
    requires o.altimeter == showAltimeter("30.001") && o.visibilityStatuteMi == "10" && !o.hasGust
    ensures Render(o) == [
      Row(0, "KPSM METAR 14:32Z"),
      Row(12, "Temp: 5.0  Dewpt: 2.0"),
      Row(24, "Wind: 270 at 10 kt"),
      Row(36, "Visibility: 10 mi"),
      Row(48, "Altimeter: " + showAltimeter("30.001") + "      VFR")]
  {
    HeaderExample();
    assert HeaderRow(o.observationTime) == "KPSM METAR 14:32Z";
    assert TempRow("5.0", "2.0") == "Temp: 5.0  Dewpt: 2.0";
    assert WindRow("270", "10", o.windGustKt, false) == "Wind: 270 at 10 kt";
    assert VisibilityRow("10") == "Visibility: 10 mi";
    assert AltimeterRow(showAltimeter("30.001"), "VFR") == "Altimeter: " + showAltimeter("30.001") + "      VFR";
  }

  /** End to end: the sample report draws these five rows. */
  lemma SampleReportFrame(showAltimeter: string -> string)
    ensures Frame(Document(SampleReport), showAltimeter) == [
      Row(0, "KPSM METAR 14:32Z"),
      Row(12, "Temp: 5.0  Dewpt: 2.0"),
      Row(24, "Wind: 270 at 10 kt"),
      Row(36, "Visibility: 10 mi"),
      Row(48, "Altimeter: " + showAltimeter("30.001") + "      VFR")]
  {
    SampleReportDecodes(showAltimeter);
    SampleRender(Decode(Document(SampleReport), showAltimeter), showAltimeter);
  }
}
