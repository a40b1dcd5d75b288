# Sensor logging and live scope: a Dafny model

This project models the sequential core of an experiment-logging toolkit:

- **The serial logger loop** (`serial_logger_task` in `moveRobot/sendCommand2.py` and `main` in
  `sendCommandToArduino.py`). Each line from the motor/IMU board is decoded, stripped and split on
  commas. It is kept only if it has at least eight fields and its first field (the current) parses as a
  number. A kept line is logged as the CSV row `[HH:MM:SS.mmm] + fields`.
- **The session around that loop.** The header row is written, then the start byte `s` is sent, then the
  data rows are written. In the `finally` block the stop byte `e` is sent and the port is closed; the log
  file is closed when its `with` block ends. Faults between opening the port and the loop, and faults
  inside the `finally` block itself, are modelled too: in them the explicit `ser.close()` is not called.
- **The live oscilloscope's state** (`RealTimeScopeApp` in `USB6421.py`). It holds a duplicate-free
  channel list, one fixed-length rolling sample buffer (a `deque(maxlen=1000)`) and one plot line per
  channel, and the acquisition task with its run flag. Its operations are `add_channel`,
  `clear_channels`, `start_task`, `setup_lines` and `update_plot`.

Files, one module each:

| file | module | models |
|---|---|---|
| `Wrappers.dfy` | `Wrappers` | `Option` |
| `Text.dfy` | `Text` | Python `str.strip()`, `str.split(',')` and `','.join` |
| `Timestamp.dfy` | `Timestamp` | `strftime('%H:%M:%S.%f')[:-3]` |
| `LineFilter.dfy` | `LineFilter` | the per-line acceptance filter and the row builder |
| `SerialLogger.dfy` | `SerialLogger` | the polling loop as a fold, and the session's effect trace |
| `RollingBuffer.dfy` | `RollingBuffer` | `deque(maxlen=n).append` / `.extend` |
| `Scope.dfy` | `Scope` | the scope window's channel, buffer, line and task state |

Inputs the model takes as parameters instead of computing them:

- The UTF-8 decode outcome of each raw line: `RawLine = Undecodable | Decoded(text)`.
- Python's `float()` acceptance: a predicate `isFloat: string -> bool`.
- `datetime.now()`: a `Clock(hour, minute, second, micro)` carried by each arriving line.
- How far the session got before its loop (`Startup`). `NoPort`: the port did not open, which is
  reported and swallowed. `FaultBeforeLog`: Ctrl+C during the 2 s settle delay, or the log file could
  not be opened. `HeaderFault`: writing the header raised. `StartByteFault`: sending `s` raised.
  `Polling`: the loop ran.
- Why the polling loop ended: `StopRequested` (the thread's stop event), `KeyboardInterrupt` (Ctrl+C,
  caught by the script) or `ReadFault` (any other exception, which is re-raised after the `finally`
  block).
- How the `finally` block ended (`Shutdown`). `Clean`: all of it ran. `StopByteFault`: sending `e`
  raised, so the port was not closed. `PortCloseFault`: `e` went out, but the 0.5 s delay or
  `ser.close()` raised.
- The acquisition driver's answers: how a task start ended (`StartOutcome`) and what a read returned
  (`Read`).

## Model

| member | source | states |
|---|---|---|
| `Text.Strip` | moveRobot/sendCommand2.py:49 | The result is a contiguous part of the line surrounded only by whitespace and neither starting nor ending with whitespace; it is empty exactly when the line is all whitespace |
| `Text.StrippedUnique` | sendCommandToArduino.py:39 | Those conditions determine the stripped line uniquely, so `Strip`'s contract fully specifies it |
| `Text.StripIdempotent` | sendCommandToArduino.py:39 | Stripping an already stripped line changes nothing |
| `Text.Split` | moveRobot/sendCommand2.py:52 | `line.split(',')` yields at least one field, no field contains a comma, and the fields joined with commas give back the line |
| `Text.JoinSplit` | moveRobot/sendCommand2.py:52 | Splitting is lossless: joining the fields with `,` gives back the stripped line |
| `Text.SplitJoin` | sendCommandToArduino.py:46 | Comma-free fields, joined with commas and split again, come back unchanged |
| `Text.SplitCount` | moveRobot/sendCommand2.py:52-53 | A line splits into one more field than it has commas |
| `Text.SplitFirst` | moveRobot/sendCommand2.py:52-55 | The first field, the one given to `float()`, is the text before the first comma |
| `Timestamp.Pad` | moveRobot/sendCommand2.py:56 | A zero-padded field has exactly the requested width and only decimal digits |
| `Timestamp.FullStamp` | moveRobot/sendCommand2.py:56 | `strftime('%H:%M:%S.%f')` gives 15 characters: `:` at positions 2 and 5, `.` at 8, digits elsewhere, and the four fields read back as hour, minute, second and microseconds |
| `Timestamp.DigitsValuePad` | moveRobot/sendCommand2.py:56 | A zero-padded field reads back as the number it encodes |
| `Timestamp.MicroPrefixIsMillis` | moveRobot/sendCommand2.py:56 | Cutting the six-digit microsecond field to three digits gives the milliseconds, truncated |
| `Timestamp.FormatTime` | moveRobot/sendCommand2.py:56 | The stamp is always 12 characters of the form `DD:DD:DD.DDD`: hour, minute and second, then the truncated millisecond field |
| `Timestamp.ParseFormatTime` | sendCommandToArduino.py:54 | The stamp can be parsed back to hour, minute, second and `micro / 1000`; this is millisecond resolution |
| `Timestamp.LexLessPad` | sendCommandToArduino.py:54 | Zero-padded numbers of equal width compare as text exactly as they compare as numbers |
| `Timestamp.FormatTimeSortable` | sendCommandToArduino.py:54 | Within one day, one stamp sorts before another as text exactly when its time (in ms) is earlier |
| `LineFilter.Accept` | moveRobot/sendCommand2.py:48-61 | Undecodable and blank lines are rejected. An accepted line has at least 8 comma-free fields, its first field is numeric, and the fields re-join to the stripped line |
| `LineFilter.MakeRow` | moveRobot/sendCommand2.py:56-57 | A row is the stamp followed by every field, untruncated and in order; it is a data row exactly when there are at least 8 fields, and it is never the header |
| `LineFilter.FewFieldsRejected` | moveRobot/sendCommand2.py:52-53 | A line with fewer than seven commas (so fewer than eight fields) produces no row |
| `LineFilter.NonNumericRejected` | moveRobot/sendCommand2.py:54-61 | A line whose text before the first comma is not a number produces no row, and nothing escapes |
| `LineFilter.AcceptExactly` | sendCommandToArduino.py:39-52 | A decoded line is accepted, with given comma-free fields, exactly when the stripped line is non-empty, has at least seven commas and starts with a number |
| `LineFilter.AcceptedRowShape` | sendCommandToArduino.py:54-57 | The row of an accepted line is a stamp plus at least eight fields, and the fields re-join to the stripped line |
| `SerialLogger.RowOf` | sendCommandToArduino.py:36-70 | A poll yields a row exactly when a line arrived and the filter keeps it. That row is a data row whose stamp is this poll's own clock reading and whose remaining cells are the kept fields |
| `SerialLogger.Rows` | sendCommandToArduino.py:35-70 | The loop writes no more rows than it made polls, and every row it writes is a data row |
| `SerialLogger.RowsAppend` | moveRobot/sendCommand2.py:46-63 | The loop is a fold: the rows of two runs of polls back to back are the rows of the first run, then those of the second, so input order is kept |
| `SerialLogger.RowsSingle` | moveRobot/sendCommand2.py:46-63 | One poll yields its own row if its line is kept, and nothing otherwise |
| `SerialLogger.RowsCount` | sendCommandToArduino.py:35-63 | The number of rows equals the number of kept lines; rejected lines never add a row |
| `SerialLogger.LogLoop` | moveRobot/sendCommand2.py:46-63 | The imperative loop writes exactly the rows of the fold |
| `SerialLogger.StopSentRuns` | moveRobot/sendCommand2.py:64-68 | After the stop byte, only closing the port and then the log completes the session |
| `SerialLogger.StreamingRuns` | moveRobot/sendCommand2.py:42-68 | Once started, the session accepts only data rows, then the stop byte, the port close and the log close |
| `SerialLogger.CompleteExactly` | moveRobot/sendCommand2.py:36-68 | A trace completes the session protocol exactly when it is the header, then `s`, then only data rows, then `e`, port close and log close |
| `SerialLogger.CompleteMarkersOnce` | sendCommandToArduino.py:21-80 | In a complete session the header is written once and first, `s` is sent once and second, and `e` is sent once, just before the closes |
| `SerialLogger.LoggedAppend` | moveRobot/sendCommand2.py:39-59 | The log contents of two traces back to back are the two logs concatenated |
| `SerialLogger.LoggedWrites` | moveRobot/sendCommand2.py:59 | Writing the rows one by one logs exactly those rows |
| `SerialLogger.Closing` | moveRobot/sendCommand2.py:64-68 | The `finally` block ends with the log close, which happens once. It writes no row. The stop byte goes out unless sending it raised, and the port is closed only when the whole block succeeded |
| `SerialLogger.OpenedTraceComplete` | sendCommandToArduino.py:25-80 | Data rows written between the start and a clean teardown make a complete session |
| `SerialLogger.OpenedTraceLogs` | sendCommandToArduino.py:25-63 | However the `finally` block ended, such a session leaves the header and then exactly those rows in the log |
| `SerialLogger.OpenedTraceMarkers` | sendCommandToArduino.py:32-80 | A session that reached its loop always sent `s`. It sent `e` unless that write raised, and called `ser.close()` only if the `finally` block succeeded. The log close comes last, once |
| `SerialLogger.CompleteClosesPort` | moveRobot/sendCommand2.py:64-68 | A trace that follows the whole protocol calls `ser.close()` |
| `SerialLogger.EarlyExit` | moveRobot/sendCommand2.py:27-42 | A session that stops before its loop never sends a byte and never calls `ser.close()`. It logs at most the header, and it closes the log exactly when the log was opened. It raises unless the port was simply missing |
| `SerialLogger.PolledSession` | sendCommandToArduino.py:21-80 | A session that reached its loop logs the header and then the rows. It completes the protocol exactly when its `finally` block succeeded. It re-raises when the loop ended by a fault or the `finally` block raised |
| `SerialLogger.Session` | moveRobot/sendCommand2.py:27-68 | A missing port means no effects and a normal return. The trace completes the protocol exactly when the loop ran and the `finally` block succeeded. `s`, `e`, the port close and the log close each happen exactly in the cases the startup and shutdown outcomes allow; the log close is always last. The log holds the header and the fold's rows once the loop ran, and at most the header otherwise. The session raises exactly when a fault occurred other than a missing port, a stop request, or a Ctrl+C caught by the loop's `except KeyboardInterrupt` |
| `SerialLogger.TeardownRegardlessOfEnding` | sendCommandToArduino.py:72-80 | For a given startup and `finally` outcome, the effects do not depend on how the loop ended; only whether the session re-raises does |
| `RollingBuffer.Push` | USB6421.py:24 | Appending to a deque created with `maxlen` grows it by one until it is full, then keeps its length; the result is always the newest elements of the old contents plus the new sample |
| `RollingBuffer.PushAll` | USB6421.py:176 | `extend` appends the samples one at a time; the result is the newest `maxlen` elements of the old contents followed by the batch |
| `RollingBuffer.Extend` | USB6421.py:176 | Extending a full buffer keeps its length; a batch at least as long as the buffer replaces it with the batch's last samples |
| `RollingBuffer.LastNPush` | USB6421.py:24 | Appending one sample to a bounded deque keeps the last `maxlen` elements |
| `RollingBuffer.LastNTwice` | USB6421.py:176 | Taking the last `n` elements before appending more does not change the last `n` elements after |
| `RollingBuffer.ExtendIsPushAll` | USB6421.py:24 | Extending in one step equals appending the samples one at a time into the bounded deque, so the buffer holds the last `maxlen` of old contents followed by new samples |
| `RollingBuffer.ExtendTwice` | USB6421.py:176 | Two extends in a row equal one extend with both batches |
| `Scope.SetupLines` | USB6421.py:90-97 | Built by appending one line per channel as the loop does. The result has one line per channel, in channel order, labelled with the channel, and channel `i` gets colour `i mod 7` |
| `Scope.SetupLinesAppend` | USB6421.py:131-135 | Rebuilding the lines after appending a channel keeps every existing line's legend and colour and adds one line for the new channel |
| `Scope.NeighbourColorsDiffer` | USB6421.py:92-95 | Any seven consecutive channels get seven different colours |
| `Scope.ColorsRepeat` | USB6421.py:95 | Colours repeat every seven channels |
| `Scope.StartTask` | USB6421.py:101-124 | With no channels it changes nothing. Otherwise the run flag becomes true exactly when the start succeeds, and a running task covers exactly the channel list. Channels, buffers and lines are untouched, and the invariant is preserved |
| `Scope.Init` | USB6421.py:22-26 | The window starts with channel `ai0`, one buffer of 1000 zeros and its line drawn; the invariant holds, and it is running exactly when the first start succeeded |
| `Scope.AddChannel` | USB6421.py:126-136 | A non-empty, unlisted name is appended at the end along with a fresh 1000-zero buffer, and the task is restarted. The rebuilt lines are the old channels' lines unchanged plus one for the new channel. Any other name changes nothing. Channels stay duplicate-free and the invariant is preserved |
| `Scope.ClearChannels` | USB6421.py:138-147 | Channels and buffers become empty and the task is dropped. The run flag and the line list are left as they were, and the invariant holds |
| `Scope.Route` | USB6421.py:175-177 | Row `k` extends buffer `k` for every row that has both a buffer and a line. The first row that has a buffer but no line still extends that buffer, because `extend` runs before `set_data` raises. An index error ends the loop, keeping the extends made so far, and the result reports whether the loop finished |
| `Scope.UpdatePlot` | USB6421.py:159-185 | Without a running task nothing changes. A failed read only clears the run flag, so later ticks do nothing until a restart. Channels, lines and task are never changed, and the invariant (equal lengths, buffers of 1000) is preserved |
| `Scope.UpdatePlotRoutes` | USB6421.py:169-176 | With several channels, batch `k` extends channel `k`'s buffer; channels without a batch are untouched, and the run continues exactly when there is no surplus batch |
| `Scope.UpdatePlotSingle` | USB6421.py:169-170 | With one channel the flat read is wrapped as that channel's single batch |
| `Scope.ClearedIsIdle` | USB6421.py:140-145 | After clearing, ticks change nothing and a restart is refused |

## Left out

- Release of the port by the serial object's finalizer. Where `ser.close()` is not called, the object's `__del__` closes the port once the session's frame is discarded (when the thread ends, or at process exit). That happens after the session, so the trace records only the explicit call as `ClosePort`.
- Serial port I/O: opening, `in_waiting` polling, reading and writing. These become the poll sequence, the `Startup` and `Shutdown` outcomes and the effect trace.
- Which exception a failing session raises: only whether it raises is modelled. When the `finally` block raises after a loop fault, its new exception replaces the loop's; both cases are `Raised`.
- The `time.sleep` settle delays: the 2 s after opening, the 0.5 s between `e` and closing, and the 3 s in `main`. They carry no data.
- UTF-8 decoding and the syntax accepted by Python's `float()`. These are inputs: the `RawLine` outcome and the `isFloat` predicate.
- The `print` console output.
- `SerialLogger.RowOf`: assumes that both the console `print` and `writer.writerow` of a kept line succeed. Either can raise `UnicodeEncodeError`: the console may lack a character, and the log file is opened without `encoding=`, so it uses the locale codec (cp932 on a Japanese Windows machine has no `é`). That error is a `ValueError`, so `except ValueError: pass` swallows it and the program writes no row for that line (`moveRobot/sendCommand2.py:58-61`, `sendCommandToArduino.py:60-67`). The model writes one, and `Rows`, `RowsCount` and `Session` inherit this assumption. Character encoding is not modelled: rows are lists of strings, not bytes.
- `Scope.ClearChannels`: assumes `task.close()` succeeds. If it raises, the program has already emptied the channels and buffers but keeps the old task and run flag (`USB6421.py:140-145`), a state outside the invariant; the model always drops the task.
- CSV quoting of fields by `csv.writer`. Rows are modelled as lists of fields, not as file text.
- Append mode (`'a'`): the model describes one session, whereas the file on disk may also hold earlier sessions, each with its own header.
- `Timestamp.FormatTimeSortable`: holds within one day only. The stamp has no date, so a session that runs past midnight does not sort by time.
- The robot motion sequence in `moveRobot/sendCommand2.py` (`main`, the vendor robot-controller calls). These are device calls with device-dependent results.
- The `threading.Event`, the thread start and the join in `moveRobot/sendCommand2.py`. Their point is concurrency; the loop's end is an input (`Ending`).
- The Tk and matplotlib widgets, the status label, `update_range`'s axis-limit parsing, `on_closing` and the animation timer of `USB6421.py`. These are GUI code.
- The acquisition driver calls (creating, configuring, reading and closing tasks). Starting and reading are replaced by the `StartOutcome` and `Read` inputs; closing is assumed to succeed (see the `Scope.ClearChannels` line above). The requested chunk size of 50 is not enforced, so batches of any length are modelled.
- `Scope.UpdatePlot`: requires that a one-channel task never returns a nested read. The driver returns a flat list for a single channel. What the program would do with a nested list there (put lists into the deque) falls outside a model of numeric samples.
- `Scope.UpdatePlot`: requires every buffer to hold at most 1000 samples. A `deque(maxlen=1000)` cannot hold more.
- Redrawing each line with `set_data` after its buffer is extended: only the index error it can raise is modelled.
- Camera capture, nearest-frame lookup and the replay scrubber: these are not part of the files modelled.
