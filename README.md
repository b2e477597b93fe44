# lilygo-t5-dashboard in Dafny

This project models the data handling of an e-paper weather dashboard and its server, and proves properties of that model.

- **The server** (`server/src/server.py`) keeps a forecast table of ten labels: `now`, `1h`, `2h`, `4h`, `8h` and `1d` to `5d`. Each label has a temperature and a weather category.
  - A refresh cycle rewrites the table from an Open-Meteo reply, one entry at a time.
  - Each connecting dashboard is sent a time message, `TIME|DD-MM-YYYY HH:MM]`, and then a weather message, `WEATHER|t|c|...|t|c]`. Both are raw ASCII with no framing.
- **The dashboard** (`client/src/main.cpp`):
  - waits at most 100 loop iterations for the reply;
  - cuts the received text at every `]`;
  - lets only a line whose text before the first `|` is `TIME` set its clock text `now`;
  - complements the header band of its frame buffer before drawing.
- **The test client** (`server/test/testclient.py`) reads frames made of a four-character decimal size followed by that many bytes.
  - It stops with status 0 when the server closes the connection, and with status 1 otherwise.

Modules, one per file:

- `Strings` (`strings.dfy`) holds decimal rendering and parsing and character search.
- `Ascii` (`ascii.dfy`) holds the bytes on the wire and the ASCII codec.
- `Forecast` (`forecast.dfy`) holds the labels, the table, `weather_lookup`, and the value a refresh leaves, as functions of the reply.
- `Messages` (`messages.dfy`) holds the two message formats.
- `Server` (`server.dfy`) holds the class `WeatherData`, whose methods update the table in place. Each method is proved against the `Forecast` functions.
- `Dashboard` (`dashboard.dfy`) holds the client's wait loop and read loop, and the class `Display` with the frame buffer as an array.
- `FrameReader` (`frame_reader.dfy`) holds the test client's loop and the frame format it expects.

The model keeps two behaviours of the code exactly as written:

- **The day flag is always false.** `sunrise` and `sunset` are both parsed from the `sunrise` field, and the comparisons are strict. Hourly labels therefore never show `sun` or `sun_cloud`, while daily labels always use the day-time variant.
- **A refresh that raises keeps its earlier writes.** For example, when a series index does not exist, the entries written before the failing read keep their new values and the later entries keep their old ones.

The model follows the code where it differs from the protocol described for this system:

- The server sends no four-digit length header. The test client therefore rejects the server's output at the first frame, because `int("TIME")` fails (`FrameReader.ServerOutputRejected`).
- A failed refresh is not discarded as a whole.
- The table has no lock.
- The test client does not fail on a short payload read.

## Model

| member | source | states |
|---|---|---|
| Forecast.Initial | server/src/server.py:15-40 | before any refresh, every label's temperature is -9999 and its category is "unknown"; that table is well formed |
| Server.WeatherData.constructor | server/src/server.py:15-40 | the object starts out holding exactly that initial table, and it is well formed |
| Forecast.WeatherLookup | server/src/server.py:46-69 | the result is one of the twelve categories; it is "unknown" exactly for the codes the match has no case for; "sun"/"sun_cloud" come only with the day flag, "moon"/"moon_cloud" only without it |
| Forecast.DayFlagMattersOnlyForClearSky | server/src/server.py:47-67 | the two day-flag values give different categories exactly for codes 0 and 1 |
| Forecast.Offset | server/src/server.py:143 | the hourly offset is the hour, or the next hour from minute 30 on, and lies within 0..24 |
| Forecast.DayOnlyBetweenSunriseAndSunset | server/src/server.py:157-159 | with strict comparisons the flag can only hold when the sunrise is before the sunset, so with both read from the sunrise field it never holds |
| Forecast.CycleOf | server/src/server.py:157-159 | the day flag of every refresh cycle is false |
| Forecast.HourLabel | server/src/server.py:166-168 | the key f"{i}h" for i in 1, 2, 4, 8 names the hourly label i hours ahead |
| Forecast.DayLabel | server/src/server.py:173-174 | the key f"{i}d" for i in 1..5 names the daily label i days ahead |
| Forecast.HourlyTemp | server/src/server.py:162-167 | an hourly label's temperature reads hourly index offset + its hours, exists exactly when that index is in range, and is that value's decimal text |
| Forecast.HourlyCode | server/src/server.py:163-170 | an hourly label's category reads the same index, exists exactly when it is in range, and is the lookup of that code with the cycle's day flag |
| Forecast.DailyValues | server/src/server.py:173-179 | daily label kd reads daily index k; its temperature is "min-max", its category is the day-time lookup, each existing exactly when its indices are in range |
| Forecast.TempReadable | server/src/server.py:162-178 | the series indices a label's temperature reads all exist; otherwise the read raises IndexError |
| Forecast.CodeReadable | server/src/server.py:163-179 | the series index a label's category reads exists; otherwise the read raises IndexError |
| Forecast.NewTemp | server/src/server.py:162-178 | a refresh stores text, never an int, and never empty text |
| Forecast.NewCode | server/src/server.py:163-179 | a refresh stores one of the twelve categories |
| Forecast.NewTempPlain | server/src/server.py:162-178 | the stored temperature text is ASCII and contains neither the bar separator nor the terminator |
| Forecast.Store | server/src/server.py:162-179 | one assignment keeps both entries of every label in the table |
| Forecast.StoreAll | server/src/server.py:161-179 | a run of assignments, in order, keeps both entries of every label in the table |
| Forecast.StoreAllAt | server/src/server.py:161-179 | after a run of assignments, an entry holds the cycle's value if one of them wrote it and its earlier value otherwise |
| Forecast.Written | server/src/server.py:152-179 | a refresh makes no assignment for a non-200 status or an empty sunrise list; otherwise it makes every assignment before the first that raises |
| Forecast.Refreshed | server/src/server.py:152-179 | a non-200 status or an empty sunrise list leaves the table unchanged; a refresh keeps the table complete and well formed |
| Forecast.RefreshWritesAll | server/src/server.py:161-179 | with status 200, a sunrise, and series long enough for offset + 8 and day 5, all 20 assignments are made |
| Forecast.RefreshSucceeds | server/src/server.py:161-179 | in that case every hourly label holds the value at offset + its hours with the night-time category, and every daily label holds "min-max" with the day-time category |
| Forecast.RefreshStopsAt | server/src/server.py:161-196 | when assignment j is the first that raises, exactly the assignments before j are made |
| Forecast.RefreshFailsAt | server/src/server.py:161-196 | then the entries written before j hold the cycle's values and every other entry keeps its old value |
| Forecast.StoreAllWellformed | server/src/server.py:161-179 | the values a night-time cycle stores keep every entry free of separators and in the category set, and keep hourly labels off the day symbols |
| Forecast.ScheduleAt | server/src/server.py:161-179 | the refresh writes label by label in the order now, 1h, 2h, 4h, 8h, 1d..5d, each label's temperature and then its category |
| Forecast.ScheduleCovers | server/src/server.py:161-179 | every label's temperature and category is among the 20 assignments |
| Forecast.PositionInOrder | server/src/server.py:262 | each label sits at its own place in the order the weather message lists the labels |
| Forecast.LabelsInOrder | server/src/server.py:262 | the label order lists every label |
| Server.WeatherData.Refresh | server/src/server.py:142-179 | one pass of the fetch loop leaves exactly the table Refreshed describes and keeps it well formed; it raises exactly when the status is 200 and fewer than 20 assignments are made |
| Server.WeatherData.Assign | server/src/server.py:161-179 | the try block makes the first n assignments in order, where n is 20 or the first assignment that raises, and raises exactly when n < 20 |
| Server.WeatherData.AssignHourly | server/src/server.py:165-170 | the loop over 1, 2, 4, 8 makes the hourly assignments in order and stops at the first that raises |
| Server.WeatherData.AssignDaily | server/src/server.py:172-179 | the loop over 1..5 makes the daily assignments in order and stops at the first that raises |
| Server.WeatherData.AssignHour | server/src/server.py:162-170 | one hourly label: the temperature, then the category, each raising exactly when its index is out of range |
| Server.WeatherData.AssignDay | server/src/server.py:173-179 | one daily label: the "min-max" temperature, then the day-time category, each raising exactly when its indices are out of range |
| Server.WeatherData.SetTemp | server/src/server.py:167 | storing the cycle's temperature for a label makes the table the first n + 1 assignments of the cycle |
| Server.WeatherData.SetCode | server/src/server.py:168-170 | storing the cycle's category for a label makes the table the first n + 1 assignments of the cycle |
| Strings.IntToString | server/src/server.py:162 | str() of an integer: a minus sign exactly for negatives, then digits whose value is the magnitude, with no leading zero unless the magnitude is 0 |
| Forecast.IntTextPlain | server/src/server.py:162 | that text is ASCII and contains neither the bar separator nor the terminator |
| Strings.Padded | server/src/server.py:250 | a strftime field: exactly `width` digits whose value is the number |
| Messages.DateText | server/src/server.py:250 | "DD-MM-YYYY HH:MM" is 16 ASCII characters, none of them the bar separator or the terminator |
| Messages.DateTextFields | server/src/server.py:250 | it has '-', '-', ' ', ':' at fixed places, and its digit fields hold day, month, year, hour and minute |
| Messages.TimeMessage | server/src/server.py:250 | the time message is 22 ASCII characters: "TIME", a bar separator, the date text, "]" |
| Forecast.Show | server/src/server.py:263 | the f-string renders an int entry as str() of it and a text entry as the text itself |
| Messages.Pairs | server/src/server.py:262-263 | the text the loop appends: for each label in order, a bar separator, its rendered temperature, a bar separator and its category |
| Messages.WeatherMessage | server/src/server.py:253-264 | generate_message_weather: "WEATHER", the pairs of all ten labels, then "]" |
| Messages.Values | server/src/server.py:262-263 | the message carries two values per label |
| Messages.ValuesAt | server/src/server.py:262-263 | label k's rendered temperature is value 2k and its category value 2k + 1 |
| Messages.PairsAreJoin | server/src/server.py:261-264 | the message before its "]" is "WEATHER" and the 20 values, joined by the bar separator |
| Messages.WeatherMessageFrame | server/src/server.py:253-264 | the weather message is ASCII, starts with "WEATHER", and its only ']' is the last character |
| Messages.WeatherMessageFields | server/src/server.py:261-264 | splitting it at the bar separator gives "WEATHER" and the 20 values, temperature then category per label in order; it holds exactly 20 bars |
| Messages.FieldsHaveNoBar | server/src/server.py:261-264 | none of the 21 fields contains the bar separator |
| Server.WeatherData.GenerateMessageWeather | server/src/server.py:253-264 | the loop composes exactly the weather message of the current table |
| Ascii.Encode | server/src/server.py:239 | encode("ascii") gives one byte per character, the character's code, below 128 |
| Server.WeatherData.SendData | server/src/server.py:202-239 | a connection carries the ASCII bytes of the time message and then those of the weather message, with nothing else |
| Dashboard.WaitForReply | client/src/main.cpp:55-62 | the wait stops after at most 100 iterations, none of the polls before the last saw data, and it stops early only when data is available |
| Strings.IndexOf | client/src/main.cpp:70 | the index of the first occurrence, or -1 exactly when there is none |
| Dashboard.ReadUntil | client/src/main.cpp:67 | one readStringUntil call on text that is not empty consumes at least one character |
| Dashboard.ReadUntilIndexOf | client/src/main.cpp:67 | it cuts at the first terminator: the line is the text before it and the rest is the text after it; without a terminator the line is all of the text |
| Dashboard.Segments | client/src/main.cpp:64-67 | the lines the read loop gets: none for empty text, otherwise at most one per character |
| Dashboard.SegmentsHaveNoTerminator | client/src/main.cpp:64-67 | the text is cut at each ']', which no segment keeps |
| Dashboard.SegmentsCover | client/src/main.cpp:64-67 | text ending in ']' is exactly its segments, each followed by ']' |
| Dashboard.SegmentsOfTerminated | client/src/main.cpp:64-67 | lines without ']', each terminated, are cut back into those same lines |
| Dashboard.Dispatch | client/src/main.cpp:70-79 | a line changes `now` exactly when its text before the first bar is "TIME", and then `now` becomes everything after that bar; a line without a bar never changes it |
| Dashboard.FinalNow | client/src/main.cpp:64-81 | `now` after the loop has dispatched every line in order |
| Dashboard.LastTime | client/src/main.cpp:64-81 | the payload of the last TIME line, and the old `now` when no line is a TIME line |
| Dashboard.FinalNowIsLastTime | client/src/main.cpp:64-81 | after the read loop, `now` is the payload of the last TIME line, or its old value when no TIME line came |
| Dashboard.ServerOutputSetsNow | client/src/main.cpp:64-81 | reading what the server sends sets `now` to exactly the "DD-MM-YYYY HH:MM" text of its time message |
| Dashboard.Display.constructor | client/src/main.cpp:128 | `now` starts empty and the frame buffer starts zeroed, EPD_WIDTH * EPD_HEIGHT / 2 bytes long |
| Dashboard.Display.ReadReplies | client/src/main.cpp:64-81 | the read loop leaves `now` as dispatching every segment in order does |
| Dashboard.Display.NextLine | client/src/main.cpp:67 | one readStringUntil(']') yields the cut ReadUntil describes: the first segment and what is left after it |
| Dashboard.Display.DispatchLine | client/src/main.cpp:70-79 | one line updates `now` as Dispatch says |
| Dashboard.Display.GetData | client/src/main.cpp:46-82 | without a connection `now` is unchanged; otherwise, once data is there, `now` becomes the last TIME payload of the text that arrived |
| Dashboard.Display.InvertHeader | client/src/main.cpp:38-44 | each of the first EPD_WIDTH * 32 / 2 bytes becomes its bitwise complement and every later byte is unchanged |
| Dashboard.Inverted | client/src/main.cpp:40-43 | the buffer keeps its length and a byte changes exactly when it lies in the header band |
| Dashboard.InvertedTwice | client/src/main.cpp:40-43 | inverting the header twice restores the buffer |
| FrameReader.ExitStatus | server/test/testclient.py:23-30 | the client exits with status 0 exactly when the server closed the connection, and with 1 otherwise |
| Ascii.Chars | server/test/testclient.py:14 | decode("ascii") gives one character per byte, with the byte's code |
| FrameReader.Recv | server/test/testclient.py:14 | a read yields at most the requested number of bytes, fewer only at the end of the stream |
| FrameReader.TrimStartSuffix | server/test/testclient.py:18 | int() skips leading whitespace, meaning space, \t, \n, \v, \f and \r only: what is left is a suffix, and everything skipped is such whitespace |
| FrameReader.TrimEndPrefix | server/test/testclient.py:18 | int() skips trailing whitespace of the same six kinds: what is left is a prefix, and everything skipped is such whitespace |
| FrameReader.SeparatorNotSkipped | server/test/testclient.py:18 | a size field beginning with one of the separators 0x1c to 0x1f is refused by int(), which does not count them as whitespace |
| FrameReader.NoSpaceTrimmed | server/test/testclient.py:18 | text without whitespace is not changed by stripping |
| FrameReader.IntOf | server/test/testclient.py:18 | int() of a 4-character field lies strictly between -10^4 and 10^4 |
| FrameReader.SignedValue | server/test/testclient.py:18 | a stripped literal with an optional sign has a value strictly between -10^n and 10^n for its length n |
| FrameReader.UngroupedDigits | server/test/testclient.py:18 | a literal without underscores keeps all its digits |
| FrameReader.LiteralValue | server/test/testclient.py:18 | a literal is accepted exactly when it is digits with single underscores between digits |
| FrameReader.IntOfDigits | server/test/testclient.py:18 | a field of plain digits is read as its decimal value |
| FrameReader.NextFrame | server/test/testclient.py:14-30 | one pass ends the run exactly at the end of the stream with "closed", or yields an ASCII payload below 10000 bytes taken after its 4-byte header |
| FrameReader.Frames | server/test/testclient.py:12-30 | every payload is ASCII and shorter than 10000 bytes, and each takes at least 4 bytes of the stream |
| FrameReader.ReadFrames | server/test/testclient.py:12-30 | the loop yields the payloads and the exit reason that Frames describes |
| FrameReader.ReadFrame | server/test/testclient.py:14-30 | one pass of the loop does what NextFrame describes |
| FrameReader.NextFrameIsFrame | server/test/testclient.py:14-21 | a 4-byte ASCII header that int() reads as n, followed by the ASCII bytes recv(n) returns, yields those bytes as the payload and uses 4 + their count bytes |
| FrameReader.NextFrameOfEncoded | server/test/testclient.py:14-22 | one pass over a frame with a zero-padded four-digit size yields its payload and uses exactly its bytes |
| FrameReader.FrameRoundTrip | server/test/testclient.py:12-22 | a frame with a zero-padded four-digit size is read back as its payload, and reading resumes right after it |
| FrameReader.FramesRoundTrip | server/test/testclient.py:12-26 | a run of such frames is read back in order and ends with a clean close |
| FrameReader.ServerOutputRejected | server/test/testclient.py:14-18 | the server's unframed output, which begins "TIME", makes int() fail on the first header: no payload and exit status 1 |

## Left out

- The HTTP request to Open-Meteo and its JSON: the reply is a parameter holding the decoded series. `sunset` is fetched but never read.
- Missing JSON keys: a reply that lacks a key would raise like an out-of-range index. The model's reply always has all its series.
- Python's round() of float temperatures: the series hold integers that are already rounded.
- datetime.now, strptime and strftime: time stamps are a record of year, month, day, hour, minute, second and microsecond, compared field by field as Python compares naive datetimes.
- The day is not checked against the length of its month. Years below 1000, whose strftime padding depends on the platform, are printed with four digits.
- Threads, signal handling, the stop event, the accept loop and its timeout, and the interval sleep: a refresh and a send are each one sequential call. Races between them are not modelled.
- The logging path after a parse error: line 196 would itself raise, because it adds an exception to a string. Such a pass ends with `raised`.
- Console logging and print_lock.
- sendall, time.sleep and close: the model gives the bytes a connection carries.
- generate_message_status: the function is a stub with no behaviour.
- WiFi setup, the e-paper driver, fonts, drawing, `memset`, `delay`, and the Arduino `setup`/`loop`.
  - EPD_WIDTH and EPD_HEIGHT are constructor parameters.
  - The frame buffer's bytes are `bv8`.
- Dashboard.Display.GetData: data is assumed to have fully arrived when the wait ends. `client.available()` at each poll is a function parameter. readStringUntil timeouts are not modelled.
- FrameReader.Recv: a read returns all the requested bytes that remain. Short reads by the operating system are not modelled.
- Python's int() on non-ASCII digits: the bytes are decoded as ASCII first, so such digits never reach int().
- The printing of the test client.
