# ESP32-METAR in Dafny

A model of the sketch in `main.cpp`, which runs on a Heltec ESP32 board. Once a
minute it fetches the latest METAR report for one airport (KPSM) from the
aviation weather service as XML. It cuts nine fields out of the XML with a
naive tag search and draws five text rows on the board's OLED display.

The model has four modules:

- `ArduinoString` (`arduino_string.dfy`): the two Arduino `String` primitives
  the sketch uses, `indexOf` and `substring`, and the conversion of a signed
  `int` argument into an `unsigned int` parameter. The Arduino core library
  is not part of this model. `IndexOf`, `Substring` and `SubstringFrom` are a
  stated assumption about its ESP32 behaviour, and nothing here checks them
  against that library. `indexOf` gives -1 on an empty receiver and
  otherwise the first occurrence, as `strstr` finds it. `substring(left,
  right)` swaps reversed bounds, returns "" when the lower bound is at or
  past the end, and clamps the upper bound to the length. `IndexOf` is
  proved to return the first occurrence or -1 (`IndexOfFirst`,
  `IndexOfAbsent`).
- `TagParse` (`tag_parse.dfy`): the extractor `parse(input, value)`. It is a
  function, so it changes no state and depends only on `input` and `value`.
  Its lemmas cover the well-formed case and every way a marker can be
  missing or misplaced.
- `Metar` (`metar.dfy`): the decoded observation and the five display rows,
  as pure functions of the extracted strings.
- `Poller` (`poller.dfy`): `loop()`. The class `Station` holds the global
  `lastTime` and the frame on the display, and its `Tick` method is one call
  of `loop()`. `Step` and `Run` are the same behaviour as functions, and the
  lemmas about whole runs are proved over them.

Three behaviours of the code are easy to misread; the model follows the code:

- A missing closing tag does not give an empty field. `endIndex` is -1, which
  `substring` receives as 2^32 - 1 and clamps, so `parse` returns the rest of
  the body after the opening tag (`ParseCloseMissing`).
- The poll fires when strictly more than `timerDelay` has elapsed, not when
  at least that much has (main.cpp:58).
- `lastTime` is refreshed after every due call, including one where WiFi is
  down (main.cpp:115-118). A skipped cycle therefore still restarts the
  interval. It also stores a second `millis()` reading taken after the
  fetch, not the reading that was compared.

## Model

| member | source | states |
|---|---|---|
| `ArduinoString.ToUnsigned` | main.cpp:25-28 | The int-to-unsigned conversion is the identity on values in range and maps -1 to 2^32 - 1. |
| `ArduinoString.IndexOf` | main.cpp:25-27 | Assumed library behaviour: the result is -1 or the first position where the pattern occurs. -1 means the non-empty pattern is absent. |
| `ArduinoString.Substring` | main.cpp:28 | Assumed library behaviour: with ordered bounds inside the string it is the slice. With reversed bounds it is the slice between them. The upper bound is clamped to the length, and a lower bound at or past the end gives "", in either order. |
| `ArduinoString.SubstringFrom` | main.cpp:93 | Assumed library behaviour: `substring(begin)` is the suffix from `begin` when `begin` is within the string, and "" otherwise. |
| `ArduinoString.IndexOfFirst` | main.cpp:25 | If a non-empty pattern first occurs at k, `indexOf` returns k. |
| `ArduinoString.IndexOfAbsent` | main.cpp:98 | `indexOf` returns -1 exactly when the non-empty pattern occurs nowhere. |
| `TagParse.OpenTag` | main.cpp:24 | The opening marker is `<`, then the tag name, then `>`, so it has length \|value\| + 2. |
| `TagParse.CloseTag` | main.cpp:26 | The closing marker is `</`, then the tag name, then `>`, so it has length \|value\| + 3. |
| `TagParse.Parse` | main.cpp:23-29 | `parse` is total, depends only on its two arguments and changes no state, and it never returns more characters than the body holds. |
| `TagParse.ParseFirstPair` | main.cpp:23-28 | Say the first `<v>` is at i and the first `</v>` is at j ≥ i+\|v\|+2. Then `parse` returns exactly the characters in [i+\|v\|+2, j). |
| `TagParse.ParseCloseBeforeOpen` | main.cpp:25-28 | The closing marker is searched from the start of the body. If it comes before the end of the opening marker, the bounds are swapped and the result runs from the closing marker to the end of the opening one. |
| `TagParse.ParseOpenMissing` | main.cpp:25-28 | With no opening marker, the start index is -1 + \|v\| + 2 = \|v\| + 1. The result is the text between that position and the first closing marker, in whichever order they come. |
| `TagParse.ParseNoMarkers` | main.cpp:25-28 | With neither marker present, `parse` does not fail. It returns the body from position \|v\| + 1 on, which is empty when the body is that short. |
| `TagParse.ParseCloseMissing` | main.cpp:27-28 | With an opening marker but no closing one, `parse` returns everything after the opening marker. |
| `TagParse.ParseIsSlice` | main.cpp:28 | For every input, the result is one contiguous piece of the body. |
| `TagParse.ParseIgnoresLaterText` | main.cpp:25-27 | Once both markers occur, the result depends only on their first occurrences. Text appended to the body never changes it. |
| `TagParse.OpenIsFirst` | main.cpp:25 | If no opening marker lies wholly before an opening marker at i, then i is the one `indexOf` finds, provided the tag name holds no `<`. |
| `TagParse.CloseIsFirst` | main.cpp:27 | Say an opening marker is at i and a closing marker at j after its end. If no closing marker lies before i or between the opening marker's end and j, then j is the one `indexOf` finds, provided the tag name holds no `<` or `/`. |
| `TagParse.ParseElement` | main.cpp:23-28 | Take a body a + `<v>` + x + `</v>` + b, where a holds neither marker, x holds no closing marker and v holds no `<` or `/`. Then `parse` returns exactly x, whatever b holds. |
| `TagParse.DocumentAbsent` | main.cpp:24-27 | In a document of elements with plain names and texts free of `<`, neither marker of a name that no element has occurs anywhere. |
| `TagParse.ParseDocument` | main.cpp:23-28 | In such a document, `parse` of a name returns the text of the first element with that name. |
| `TagParse.DocumentAbsentPlain` | main.cpp:98 | A word with no `<`, `>` or `/` that no element name or text holds occurs nowhere in the document. |
| `TagParse.ParseStrayCloseExample` | main.cpp:25-28 | `parse("</t><t>x</t>", "t")` is `"</t><t>"`, not `"x"`, because the closing marker is searched from the start. |
| `Metar.Decode` | main.cpp:78-98 | Decoding never fails. The gust flag is set exactly when "gust" occurs anywhere in the body, not only inside the gust element. |
| `Metar.HeaderRow` | main.cpp:93 | The header is "KPSM METAR " followed by the timestamp without its first 11 characters. If the timestamp has fewer than 11 characters, the header is "KPSM METAR " alone. |
| `Metar.TempRow` | main.cpp:94 | The temperature and the dewpoint can be read back from fixed offsets around "Temp: " and "  Dewpt: ". |
| `Metar.WindRow` | main.cpp:98-101 | The row is "Wind: " + dir + " at " + speed and ends in " kt". In the gust branch "G" + gust comes before " kt". Otherwise the row is 1 + \|gust\| characters shorter. |
| `Metar.VisibilityRow` | main.cpp:102 | The visibility value sits between "Visibility: " and " mi". |
| `Metar.AltimeterRow` | main.cpp:103 | The altimeter text follows "Altimeter: ", then come six spaces, then the flight category. |
| `Metar.Render` | main.cpp:91-103 | A frame has five rows at y = 0, 12, 24, 36 and 48: the header, the temperature row, the wind row for the decoded gust flag, the visibility row and the altimeter row, in that order. |
| `Metar.Frame` | main.cpp:78-103 | For any body, each row is built from `parse` of its own elements: the header from `observation_time`, the temperature row from `temp_c` and `dewpoint_c`, the wind row from the wind elements and whether "gust" occurs, the visibility row from `visibility_statute_mi`, and the altimeter row from the formatted `altim_in_hg` and `flight_category`. |
| `Metar.WindRowIgnoresGust` | main.cpp:101 | Outside the gust branch, the gust value never reaches the display. |
| `Metar.GustTagSelectsGustBranch` | main.cpp:83-98 | Any body with a `<wind_gust_kt>` element takes the gust branch, because the tag name itself contains "gust". |
| `Metar.NoGustPlainWindRow` | main.cpp:98-101 | A body without "gust" anywhere draws "Wind: " + dir + " at " + speed + " kt", whatever the gust element would have said. |
| `Metar.GustTagWindRow` | main.cpp:98-99 | For any body with a `<wind_gust_kt>` element, the wind row is "Wind: " + direction + " at " + speed + "G" + gust + " kt". |
| `Metar.GustWordOutsideTag` | main.cpp:96-101 | The word "gust" with no gust element still takes the gust branch. The body "gust" draws the wind row "Wind:  at G kt". |
| `Metar.SampleReportHasNoGust` | main.cpp:98 | The sample report for KPSM, with eight elements and no gust element, holds "gust" nowhere. |
| `Metar.SampleReportDecodes` | main.cpp:78-98 | The sample report decodes every field to the text of its element, and the gust flag is off. |
| `Metar.SampleRender` | main.cpp:91-103 | The sample observation renders as the five rows "KPSM METAR 14:32Z", "Temp: 5.0  Dewpt: 2.0", "Wind: 270 at 10 kt", "Visibility: 10 mi" and "Altimeter: " + the shown altimeter + six spaces + "VFR". |
| `Metar.SampleReportFrame` | main.cpp:78-103 | End to end: the body of the sample report draws exactly those five rows at y = 0, 12, 24, 36 and 48. |
| `Metar.HeaderExample` | main.cpp:93 | The timestamp "2024-01-01T14:32Z" gives the header "KPSM METAR 14:32Z". A timestamp shorter than 11 characters gives "KPSM METAR ". |
| `Poller.Elapsed` | main.cpp:58 | `millis() - lastTime` in unsigned 32-bit arithmetic: the plain difference, plus 2^32 when the clock reads less than `lastTime`. |
| `Poller.Due` | main.cpp:58 | On raw clock values, a poll is due when `millis()` exceeds `lastTime` + `timerDelay`. When the clock has wrapped below `lastTime`, it is due when `millis()` + 2^32 exceeds that sum. |
| `Poller.StartupPoll` | main.cpp:18-58 | From the initial `lastTime` of 59000, a poll is due exactly when `millis()` is below 59000 or above 119000. So the first call polls at once when `setup()` returns before `millis()` reaches 59000. After a longer WiFi connect, the first poll waits until `millis()` passes 119000. |
| `Poller.Step` | main.cpp:58-118 | If the interval has not elapsed, nothing changes. A due call always stores the second clock reading, whether or not it succeeds. The frame changes only when WiFi is connected and the response code is positive, and then becomes the new body's frame. |
| `Poller.LastDraw` | main.cpp:58-71 | The index returned is -1 or a call that redraws, and no later call in the run redraws. |
| `Poller.RunShowsLastDraw` | main.cpp:56-119 | After any sequence of calls, the display shows the frame of the last call that redrew it, or the starting frame if none did. |
| `Poller.RunQuiet` | main.cpp:58-118 | Calls whose elapsed time since `lastTime`, in unsigned 32-bit arithmetic and so also across the wrap of `millis()`, is at most `timerDelay` change nothing. So after any attempt, failed or not, the next one waits a full interval. |
| `Poller.Station.constructor` | main.cpp:18-19 | `lastTime` starts at 59000 and nothing has been drawn yet. |
| `Poller.Station.Tick` | main.cpp:56-119 | A new frame is drawn iff the interval has elapsed, WiFi is connected and the response code is positive. `lastTime` becomes the later clock reading on every due call and is otherwise unchanged. The frame is replaced by the body's frame or left untouched. The new state is `Step` of the old one. |

## Left out

- WiFi association, the connect loop and the delays in `setup()` (main.cpp:33-54) are platform I/O. The constructor starts from the state after `setup()` and does not record its "Connecting" screens.
- `HTTPClient` `begin`/`GET`/`getString`/`end` (main.cpp:61-75, 113) is the network client. The response code and the body are parameters of `Tick`, and so are the WiFi status and both `millis()` readings.
- The Serial logging (main.cpp:72-73, 109-110, 116) is output only.
- Of the Heltec display driver, only the rows drawn are modelled, as (y, text) pairs. Every row is drawn at x = 0. The font and alignment calls are left out.
- The altimeter value passes through `toFloat`, `round(x*1000)/1000` and `String(float)` (main.cpp:85, 87, 103; the `altim` string of line 88 is never used). That is floating-point work in the Arduino library, which is not part of this model. It is the opaque parameter `showAltimeter`. Two library details decide the digits shown: `String(float)` prints two decimals by default, and some Arduino cores define `round` as a macro that returns `long`. Neither is modelled.
- The Arduino `String` primitives are assumed, not verified. `indexOf` goes through `strstr`, which stops at the first NUL byte of the body. The model treats NUL as an ordinary character, so on a body that holds one `IndexOf` can find matches the board does not (the gust test of `Decode` included). Allocation failures inside `String` are not modelled.
- The lemmas about `parse` assume a body shorter than 2^32 characters, so that positions do not wrap when they are converted to `unsigned int`.
- Positions count characters, while an Arduino `String` counts bytes. The two agree only on ASCII bodies. On a body with multi-byte UTF-8 characters the fallback start |v| + 1 (`ParseOpenMissing`, `ParseNoMarkers`) and the `substring(11)` of the header (`HeaderRow`) cut at different places than on the board.
- `Run` models successive calls of `loop()` by the Arduino runtime, which is not part of this model.
- The request URL, the SSID and the password (main.cpp:10-14) are configuration constants and play no part in the model.
- `Metar.Decode`: its contract states only the gust flag. Each other field is `parse` of its tag name, and the `TagParse` lemmas state what that yields.
