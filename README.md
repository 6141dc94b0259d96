# Tide monitor ingestion pipeline, modelled in Dafny

TidePlotter.py receives telemetry frames from a tide sensor over a serial line. A frame looks like
`S1,V4106,C55,U841,s6835,r-58,n12`. The program keeps four values from each frame, stamps them with
the local time, and appends them to an in-memory data list and to the CSV file
`tide_sensor_data.csv`. It then plots the latest 20000 points. This project models that pipeline and
proves the properties its code promises:

- `message_parser.dfy`: `parse_message`. A left-to-right scan for the tokens a letter followed by an
  optionally negative integer. The tokens are folded into a dictionary over the seven known letters,
  so the last occurrence wins. `V` and `s` are millivolts and the rest are plain integers.
  `ParseMessage` is the loop itself, proved equal to the functional `Parse`.
- `ingestion.dfy`: the body of the reader thread's loop.
  - It strips the line and shows it with its receive time.
  - It drops the line if it is shorter than 10 characters, does not start with `S`, or is longer
    than 40. Because the length test comes first, an empty line is never indexed.
  - It then parses the line. A measurement is built only when all four of battery, solar,
  ultrasonic and RSSI are present.
  - Each measurement is appended to the data list and written to the log, and the list is
    published.
  - The value-level specification is `Next`/`Replay` over a `Session`. The class `SerialReader`
    holds the thread's state and is proved against it.
- `telemetry_log.dfy`: `write_data_to_file`, `read_data_from_file` and `delete_data`, over a file
  that is a list of text lines or absent. The class `CsvLog` is the shared file.
- `timestamps.dfy`: the `'%Y-%m-%d %H:%M:%S'` format and its parse, over integer date-time fields.
- `plot_window.dfy`: the slice `self.data[-20000:]` drawn by `update_plot`.
- `text.dfy`, `decimal.dfy`, `wrappers.dfy`: comma split/join, `str.strip`, and the decimal text of
  integers and of `n / 1000.0`, with their parsers.

Modelling choices:

- **Voltages are exact.** A voltage is held as its integer number of millivolts (`Volts(milli)`,
  whose `Value()` is `milli / 1000` as a real). It is written out as the shortest decimal, which is
  what Python's float `repr` prints for such values.
- **Clocks are parameters.** The program reads the clock twice per frame: once for the diagnostic
  line (line 115) and once for the measurement (line 125). These become the two parameters
  `receivedAt` and `acceptedAt`.
- **Write failures are a parameter.** Whether `open()` succeeds becomes the parameter `canOpen`.
  When it does not, the exception is swallowed and the file is unchanged.

Behaviour of the code that the model keeps:

- **Unbounded data list.** The data list is unbounded and never evicts anything. Only the plotted
  window is bounded (`PlotWindow.Window`).
- **Read errors.** An undecodable row makes the whole read return `[]`, silently. It is not reported
  as a distinct error.
- **Write errors.** A failed write is swallowed and does not propagate.
- **Round trip.** A written measurement reads back at second precision, not exactly
  (`TelemetryLog.FreshLogRoundTrip`).
- **Existing empty file.** It gets no header, so its first record is lost on the next read
  (`TelemetryLog.EmptyFileLosesFirstRow`).
- **Delete.** `os.remove` is not wrapped in a `try`. A failed removal leaves the file in place (`TelemetryLog.Deleted`, parameter `canRemove`). `delete_data` has no guard against a running reader. A later write re-creates the file
  with a header, while the reader's in-memory list keeps its older entries.
- **Published lists.** One list is published after each accepted measurement: the data list as it stands right then (`Ingestion.ReplayPublished`).
- **Window size.** The comment on line 253 says 10000, but the code keeps 20000 points.

## Model

| member | source | states |
|---|---|---|
| Text.StripSpec | TidePlotter.py:114 | the result is empty or has non-whitespace ends, and it is the input with whitespace-only text removed on both sides |
| Text.StripPadded | TidePlotter.py:114 | stripping whitespace padding on both sides of a text with non-whitespace ends gives that text back |
| Text.StripIdempotent | TidePlotter.py:114 | stripping twice is stripping once |
| Text.SplitJoin | TidePlotter.py:48-64 | splitting a comma-joined record whose fields contain no comma gives the fields back |
| Decimal.IntTextRoundTrip | TidePlotter.py:50 | the text `str()` writes for an integer parses back to that integer |
| Decimal.MilliTextRoundTrip | TidePlotter.py:50 | the text written for a voltage of m millivolts (m/1000 V) parses back to exactly m |
| Timestamps.FormatParse | TidePlotter.py:127 | parsing a formatted timestamp gives the same date and time with the sub-second part dropped |
| Timestamps.ParseFormat | TidePlotter.py:50 | every text the parser accepts is the format of what it yields, so the format is canonical |
| MessageParser.Tokens | TidePlotter.py:84 | every token found starts with an ASCII letter |
| MessageParser.TokensSeparator | TidePlotter.py:84 | for any text split at a character that is not a letter, digit or '-', the tokens are those of the left part followed by those of the right part |
| MessageParser.TokenStart | TidePlotter.py:84 | every token the scan yields is the match of `([A-Za-z])(-?\d+)` at some position of the text |
| MessageParser.TokensLeftmost | TidePlotter.py:84 | where the expression matches nowhere before position i and matches at i, the first token is that match and the scan resumes right after it |
| MessageParser.TokensNone | TidePlotter.py:84 | a text where the expression matches at no position yields no tokens |
| MessageParser.TokensOfFrame | TidePlotter.py:84 | scanning comma-separated tokens written out as letter plus integer finds exactly those tokens, in order |
| MessageParser.ReadingOf | TidePlotter.py:88-91 | V and s readings have value n/1000 and every other known letter has value n |
| MessageParser.Fields | TidePlotter.py:86-91 | a key holds a voltage exactly when it is the battery or solar field |
| MessageParser.FieldsKeys | TidePlotter.py:86-87 | a field is in the dictionary if and only if some token carries its letter |
| MessageParser.FieldsLastWins | TidePlotter.py:86-91 | for a repeated letter the value of its last token is kept |
| MessageParser.FieldsIgnoreUnknown | TidePlotter.py:87 | a token with an unknown letter changes nothing |
| MessageParser.ParseMessage | TidePlotter.py:82-93 | the loop over the matches builds the same dictionary as the value-level parse |
| MessageParser.ParseExample | TidePlotter.py:85 | the documented frame gives sensor 1, 4.106 V, message 55, range 841, 6.835 V, RSSI -58, SNR 12 |
| Lists.MapAll | TidePlotter.py:50 | decoding succeeds if and only if every record decodes, and then yields one measurement per record, in order |
| TelemetryLog.ReadRows | TidePlotter.py:44-54 | a missing file, an empty file or one bad record give []; otherwise the decoded records after the first line, in order |
| TelemetryLog.Appended | TidePlotter.py:56-68 | a failed open changes nothing; an existing file is kept as a prefix; a new file starts with the header |
| TelemetryLog.AppendedLines | TidePlotter.py:58-64 | a write keeps the old lines, adds the header only when there was no file, then one record per row in order |
| TelemetryLog.RowRoundTrip | TidePlotter.py:50 | a written record decodes to its measurement at second precision |
| TelemetryLog.DecodeEncoded | TidePlotter.py:48-50 | written records decode, in order, to the measurements at second precision |
| Lists.MapAllConcat | TidePlotter.py:50 | the all-or-nothing comprehension distributes over concatenation of records |
| TelemetryLog.LoadAfterAppend | TidePlotter.py:44-68 | appending keeps the file readable, and the next read gives the earlier rows followed by the new ones |
| TelemetryLog.FreshLogRoundTrip | TidePlotter.py:58-62 | writing to a missing file writes the header, and reading gives the rows back at second precision |
| TelemetryLog.EmptyFileLosesFirstRow | TidePlotter.py:49-62 | an existing empty file gets no header, so its first record is skipped by the next read |
| TelemetryLog.ReadRowsAtSeconds | TidePlotter.py:50 | records read back carry no sub-second part |
| TelemetryLog.CsvLog.Write | TidePlotter.py:56-68 | the file becomes the appended file: unchanged if it cannot be opened, else the old lines or the header, then the records |
| TelemetryLog.Deleted | TidePlotter.py:231-237 | the file is absent afterwards unless it existed and could not be removed, in which case it is unchanged |
| TelemetryLog.DeleteThenWrite | TidePlotter.py:231-237 | after a successful delete a read gives [], and the next write starts a new file with the header that reads back as the rows written |
| TelemetryLog.CsvLog.Delete | TidePlotter.py:231-237 | the file becomes the deleted file: gone when removal succeeds, in place when `os.remove` fails |
| Ingestion.Admit | TidePlotter.py:116-126 | an admitted measurement has two voltages, two integers and the acceptance time |
| Ingestion.AdmitIff | TidePlotter.py:116-124 | a stripped line is admitted if and only if its length is 10 to 40, it starts with S, and it carries V, s, U and r tokens |
| Ingestion.AdmitFromLastTokens | TidePlotter.py:118-122 | each reading of an admitted measurement is the value of the last token with its letter |
| Ingestion.AdmitExample | TidePlotter.py:116-126 | the documented frame is admitted as 4.106 V, 6.835 V, range 841, RSSI -58 |
| Ingestion.ShortFrameDropped | TidePlotter.py:116 | the frame S1,V4106 is dropped |
| Ingestion.NextSkipped | TidePlotter.py:116-117 | a line the pre-filter drops changes only the message list |
| Ingestion.NextRejects | TidePlotter.py:124 | a dropped line leaves the data list, the published lists and the log unchanged |
| Ingestion.NextAccepts | TidePlotter.py:124-128 | an accepted line adds exactly its measurement at the end of the data list, publishes the list, and adds exactly one record to the log when it can be opened |
| Ingestion.NextAcceptsLog | TidePlotter.py:127 | the record an accepted line writes reads back as its measurement at second precision |
| Ingestion.RenderParts | TidePlotter.py:115 | the message shown is the receive time (parsable back at second precision), " :: ", then the stripped line |
| Ingestion.ReplayMessages | TidePlotter.py:110-115 | every line read yields exactly one message, in arrival order, accepted or not |
| Ingestion.ReplayData | TidePlotter.py:124-126 | the data list grows by exactly the admitted measurements, in arrival order, keeping its earlier entries |
| Ingestion.ReplayPublished | TidePlotter.py:126-128 | one list is published per admitted measurement; earlier lists are kept, and the list published for admission j is the data list right after it |
| Ingestion.NextPublished | TidePlotter.py:124-128 | one line extends the data list by what it yields and publishes the new list exactly when it yields a measurement |
| Ingestion.ReplayPublishedPrefixes | TidePlotter.py:126-128 | every published list is a prefix of the final data list |
| Ingestion.NextLog | TidePlotter.py:127 | one line changes what the log reads back by the row it wrote, if any |
| Ingestion.ReplayLog | TidePlotter.py:110-128 | the log stays readable and reads back as before plus the measurements whose write could open the file |
| Ingestion.LoggedAll | TidePlotter.py:127 | when every open succeeds, every admitted measurement is logged |
| Ingestion.ReplayInSync | TidePlotter.py:107-128 | with writes that succeed, the log keeps reading back as the data list at second precision |
| Ingestion.StartInSync | TidePlotter.py:107 | at start-up the data list is what the log reads back, so the two agree |
| Ingestion.SerialReader.ProcessLine | TidePlotter.py:114-128 | the reader's state and the log become the next session for this line |
| Ingestion.SerialReader.Run | TidePlotter.py:105-128 | loading the log and then handling the lines in order gives the replayed session |
| PlotWindow.Window | TidePlotter.py:253 | the window has min(\|data\|, 20000) points and is the suffix of the data list of that length |
| PlotWindow.WindowIdempotent | TidePlotter.py:253 | taking the window of the window changes nothing |
| PlotWindow.WindowSlides | TidePlotter.py:253 | one more point appends to the window and, once it is full, drops its oldest point |
| PlotWindow.WindowMembers | TidePlotter.py:253 | a point is drawn if and only if fewer than 20000 points arrived after it |

## Left out

- Serial I/O: `serial.Serial`, `in_waiting`, `readline` and `close` are device calls. The model takes each line as a string already read.
- UTF-8 decoding with `errors='ignore'`: a line is a string of characters.
- Threading and lifecycle: `QThread`, the Qt signals, the `running` flag and `stop()`/`wait()`. The loop's lines are a finite sequence of frames given to `Run`, and the flag is not modelled.
- The lists published through `data_updated` (declared `pyqtSignal(list)`) are modelled as snapshots of the data list. Whether a receiver sees a copy or the thread's own list depends on how PyQt passes `list` arguments, which is library behaviour outside TidePlotter.py.
- The Qt window and the matplotlib/pandas plotting: axis limits, date formatting, the `0 → NaN` replacement.
- `get_data_directory` and `os.environ`, which are platform and environment lookups.
- CSV quoting and line terminators. A record is a plain comma join, which is exact because no field written here contains a comma, quote or newline.
- A write that fails after `open()` succeeds, which would leave part of a row behind.
- File contents changed by anything other than this program.
- Decimal.MilliText: matches Python's float `repr` of `n / 1000.0` for up to about 15 significant digits. Beyond that Python rounds, or switches to exponent form at 1e16.
- TelemetryLog.DecodeRow: reads columns 2 and 3 with the model's strict decimal syntax, and columns 4 and 5 as integers.
  - Python's `float()` also accepts surrounding whitespace, `+`, exponents, `inf` and `nan`. The model does not, so a hand-edited file that Python would read can be rejected by the model.
  - Files written by the program contain only texts the model accepts.
- Timestamps.Parse: accepts only zero-padded fields. `strptime` also accepts one-digit fields, and for a year before 1000 `strftime('%Y')` may not pad at all, depending on the platform.
- Text.Strip: strips the ASCII whitespace characters Python strips, but not other Unicode whitespace.
- MessageParser.Tokens: digits are `0`–`9` only. Python's `\d` and `int()` also accept other Unicode decimal digits.
- TelemetryLog.CsvLog.Delete: a failing `os.remove` is modelled as the file left in place. The exception it raises out of the Qt slot is not modelled.
