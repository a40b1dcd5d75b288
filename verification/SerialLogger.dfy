/**
 The serial logging loop shared by the threaded logger task and the
 stand-alone logging script, and the sequence of effects one logging session
 has on the log file and the serial port.

 The port, the log file and the clock are abstracted: the loop consumes a
 sequence of polls (either nothing was waiting, or one raw line arrived at a
 given time of day) and a session produces a trace of effects.
 */
module SerialLogger {
  import opened Wrappers
  import Timestamp
  import LineFilter

  /** One turn of the polling loop. */
  datatype Poll = Quiet | Arrived(line: LineFilter.RawLine, clock: Timestamp.Clock)

  /** Every clock reading in the polls is a real time of day. */
  predicate ClocksValid(polls: seq<Poll>) {
    forall i :: 0 <= i < |polls| && polls[i].Arrived? ==> Timestamp.ValidClock(polls[i].clock)
  }

  /** True when the poll delivers a line that the filter keeps. */
  predicate Kept(p: Poll, isFloat: string -> bool) {
    p.Arrived? && LineFilter.Accept(p.line, isFloat).Some?
  }

  /** The row one poll appends to the log, if any. */
  function RowOf(p: Poll, isFloat: string -> bool): (r: Option<seq<string>>)
    requires p.Arrived? ==> Timestamp.ValidClock(p.clock)
    ensures r.Some? <==> Kept(p, isFloat)
    ensures r.Some? ==> LineFilter.IsDataRow(r.value) && r.value[1..] == LineFilter.Accept(p.line, isFloat).value
    ensures r.Some? ==> r.value[0] == Timestamp.FormatTime(p.clock)
  {
    match p
    case Quiet => None
    case Arrived(line, clock) =>
      match LineFilter.Accept(line, isFloat)
      case None => None
      case Some(parts) => Some(LineFilter.MakeRow(clock, parts))
  }

  /** The present values of `xs`, in order. */
  function Somes<T>(xs: seq<Option<T>>): (r: seq<T>)
    ensures |r| <= |xs|
    decreases |xs|
  {
    if |xs| == 0 then []
    else
      var n := |xs| - 1;
      match xs[n]
      case None => Somes(xs[..n])
      case Some(v) => Somes(xs[..n]) + [v]
  }

  /** Every value kept has any property that all present values have. */
  lemma {:induction false} SomesAll<T>(xs: seq<Option<T>>, p: T -> bool)
    requires forall i :: 0 <= i < |xs| && xs[i].Some? ==> p(xs[i].value)
    ensures forall k :: 0 <= k < |Somes(xs)| ==> p(Somes(xs)[k])
    decreases |xs|
  {
    if |xs| > 0 {
      var n := |xs| - 1;
      assert forall i :: 0 <= i < n ==> xs[..n][i] == xs[i];
      SomesAll(xs[..n], p);
    }
  }

  lemma {:induction false} SomesAppend<T>(xs: seq<Option<T>>, ys: seq<Option<T>>)
    ensures Somes(xs + ys) == Somes(xs) + Somes(ys)
    decreases |ys|
  {
    if |ys| > 0 {
      var n := |ys| - 1;
      SomesAppend(xs, ys[..n]);
      assert (xs + ys)[..|xs + ys| - 1] == xs + ys[..n];
      assert (xs + ys)[|xs + ys| - 1] == ys[n];
    } else {
      assert xs + ys == xs;
    }
  }

  /** The indices at which `xs` holds a value. */
  function PresentAt<T>(xs: seq<Option<T>>): set<nat> {
    set i: nat | i < |xs| && xs[i].Some?
  }

  lemma {:induction false} SomesCount<T>(xs: seq<Option<T>>)
    ensures |Somes(xs)| == |PresentAt(xs)|
    decreases |xs|
  {
    if |xs| > 0 {
      var n := |xs| - 1;
      SomesCount(xs[..n]);
      var before := PresentAt(xs[..n]);
      assert forall i :: 0 <= i < n ==> xs[..n][i] == xs[i];
      if xs[n].Some? {
        assert n !in before;
        assert PresentAt(xs) == before + {n};
      } else {
        assert PresentAt(xs) == before;
      }
    }
  }

  /** What each poll contributes to the log. */
  function Contributions(polls: seq<Poll>, isFloat: string -> bool): (r: seq<Option<seq<string>>>)
    requires ClocksValid(polls)
    ensures |r| == |polls|
    ensures forall i :: 0 <= i < |polls| ==> r[i] == RowOf(polls[i], isFloat)
  {
    seq(|polls|, i requires 0 <= i < |polls| => RowOf(polls[i], isFloat))
  }

  /** The rows the loop writes, in order, for the polls it performs. */
  function Rows(polls: seq<Poll>, isFloat: string -> bool): (rows: seq<seq<string>>)
    requires ClocksValid(polls)
    ensures |rows| <= |polls|
    ensures forall k :: 0 <= k < |rows| ==> LineFilter.IsDataRow(rows[k])
  {
    var contributions := Contributions(polls, isFloat);
    SomesAll(contributions, LineFilter.IsDataRow);
    Somes(contributions)
  }

  /**
   The loop is a fold: the rows for two stretches of polls are the rows of the
   first followed by the rows of the second. In particular rows keep the order
   of their lines, and a rejected line adds no row.
   */
  lemma RowsAppend(a: seq<Poll>, b: seq<Poll>, isFloat: string -> bool)
    requires ClocksValid(a) && ClocksValid(b)
    ensures ClocksValid(a + b)
    ensures Rows(a + b, isFloat) == Rows(a, isFloat) + Rows(b, isFloat)
  {
    assert forall i :: 0 <= i < |a + b| ==> (a + b)[i] == if i < |a| then a[i] else b[i - |a|];
    assert Contributions(a + b, isFloat) == Contributions(a, isFloat) + Contributions(b, isFloat);
    SomesAppend(Contributions(a, isFloat), Contributions(b, isFloat));
  }

  /** A single poll yields its own row if its line is kept, and nothing otherwise. */
  lemma RowsSingle(p: Poll, isFloat: string -> bool)
    requires p.Arrived? ==> Timestamp.ValidClock(p.clock)
    ensures ClocksValid([p])
    ensures Rows([p], isFloat) == if Kept(p, isFloat) then [RowOf(p, isFloat).value] else []
  {
    var c := Contributions([p], isFloat);
    assert c == [RowOf(p, isFloat)];
    assert c[..0] == [];
  }

  /** One more poll of a run appends that poll's row, if any, to the rows so far. */
  lemma RowsSnoc(polls: seq<Poll>, i: nat, isFloat: string -> bool)
    requires ClocksValid(polls) && i < |polls|
    ensures ClocksValid(polls[..i]) && ClocksValid(polls[..i + 1])
    ensures Rows(polls[..i + 1], isFloat) ==
      Rows(polls[..i], isFloat) + if Kept(polls[i], isFloat) then [RowOf(polls[i], isFloat).value] else []
  {
    var p := polls[i];
    assert forall k :: 0 <= k <= i ==> polls[..i + 1][k] == polls[k];
    assert polls[..i + 1] == polls[..i] + [p];
    RowsAppend(polls[..i], [p], isFloat);
    RowsSingle(p, isFloat);
  }

  /** The indices of the polls whose line the filter keeps. */
  function KeptIndices(polls: seq<Poll>, isFloat: string -> bool): set<nat> {
    set i: nat | i < |polls| && Kept(polls[i], isFloat)
  }

  /** The loop writes exactly one row per kept line: malformed lines never add a row. */
  lemma RowsCount(polls: seq<Poll>, isFloat: string -> bool)
    requires ClocksValid(polls)
    ensures |Rows(polls, isFloat)| == |KeptIndices(polls, isFloat)|
  {
    var c := Contributions(polls, isFloat);
    SomesCount(c);
    assert PresentAt(c) == KeptIndices(polls, isFloat);
  }

  /** The loop itself: one pass over the polls, appending a row for every kept line. */
  method LogLoop(polls: seq<Poll>, isFloat: string -> bool) returns (rows: seq<seq<string>>)
    requires ClocksValid(polls)
    ensures rows == Rows(polls, isFloat)
  {
    rows := [];
    var i := 0;
    while i < |polls|
      invariant 0 <= i <= |polls|
      invariant ClocksValid(polls[..i])
      invariant rows == Rows(polls[..i], isFloat)
    {
      var p := polls[i];
      RowsSnoc(polls, i, isFloat);
      var row := RowOf(p, isFloat);
      if row.Some? {
        rows := rows + [row.value];
      }
      i := i + 1;
    }
    assert polls[..|polls|] == polls;
  }

  /** Byte sent to start the device's stream. */
  const StartByte: char := 's'
  /** Byte sent to stop the device's motor and stream. */
  const StopByte: char := 'e'

  /** What a session does to the outside world, in order. */
  datatype Effect =
    | WriteRow(fields: seq<string>)   // one CSV row appended to the log file
    | SendByte(b: char)               // one byte written to the serial port
    | ClosePort                       // the explicit `ser.close()` call
    | CloseLog                        // the log file closed when its `with` block ends

  /** Why the polling loop ended. */
  datatype Ending =
    | StopRequested      // the logger thread saw its stop event set
    | KeyboardInterrupt  // the script's user pressed Ctrl+C, which the script catches
    | ReadFault          // any other exception escaping the loop (a serial I/O failure)

  /** Whether the session returns normally or re-raises after its `finally` block. */
  datatype Outcome = Returned | Raised

  /** How far a session got once the port call returned. */
  datatype Startup =
    | NoPort          // opening the port raised the not-found error, which is reported and swallowed
    | FaultBeforeLog  // the settle delay was interrupted, or the log file could not be opened
    | HeaderFault     // the log is open but writing the header row raised
    | StartByteFault  // the header is written but sending the start byte raised
    | Polling         // the start byte went out and the loop ran

  /** How the `finally` block of a session that reached its loop ended. */
  datatype Shutdown =
    | Clean           // the stop byte went out and the port was closed
    | StopByteFault   // sending the stop byte raised, so `ser.close()` was not called
    | PortCloseFault  // the stop byte went out, but the delay after it or closing the port raised

  datatype SessionRun = SessionRun(trace: seq<Effect>, outcome: Outcome)

  /** The row writes for `rows`, in order. */
  function Writes(rows: seq<seq<string>>): (r: seq<Effect>)
    ensures |r| == |rows|
    ensures forall k :: 0 <= k < |r| ==> r[k] == WriteRow(rows[k])
  {
    if |rows| == 0 then [] else [WriteRow(rows[0])] + Writes(rows[1..])
  }

  /** The stages of a session that opened its port, as seen from outside. */
  datatype Phase = Ready | HeaderWritten | Streaming | StopSent | PortClosed | Finished

  /** One transition of the session protocol; `None` when the effect is out of order. */
  function Step(p: Phase, e: Effect): Option<Phase> {
    match (p, e)
    case (Ready, WriteRow(f)) => if f == LineFilter.Header then Some(HeaderWritten) else None
    case (HeaderWritten, SendByte(b)) => if b == StartByte then Some(Streaming) else None
    case (Streaming, WriteRow(f)) => if LineFilter.IsDataRow(f) then Some(Streaming) else None
    case (Streaming, SendByte(b)) => if b == StopByte then Some(StopSent) else None
    case (StopSent, ClosePort) => Some(PortClosed)
    case (PortClosed, CloseLog) => Some(Finished)
    case _ => None
  }

  /** The phase reached after `trace`, or `None` if some effect is out of order. */
  function RunFrom(p: Phase, trace: seq<Effect>): Option<Phase>
    decreases |trace|
  {
    if |trace| == 0 then Some(p)
    else
      match Step(p, trace[0])
      case None => None
      case Some(q) => RunFrom(q, trace[1..])
  }

  /** A complete, correctly ordered session. */
  predicate Complete(trace: seq<Effect>) {
    RunFrom(Ready, trace) == Some(Finished)
  }

  /** The teardown every session that opened its port ends with. */
  const Teardown: seq<Effect> := [SendByte(StopByte), ClosePort, CloseLog]

  /** After the stop byte, only the port close and then the log close complete the session. */
  lemma StopSentRuns(t: seq<Effect>)
    ensures RunFrom(StopSent, t) == Some(Finished) <==> t == [ClosePort, CloseLog]
  {
    if |t| >= 1 && t[0] == ClosePort {
      assert RunFrom(StopSent, t) == RunFrom(PortClosed, t[1..]);
      if |t| >= 2 && t[1] == CloseLog {
        assert t[1..][0] == CloseLog;
        assert RunFrom(PortClosed, t[1..]) == RunFrom(Finished, t[2..]);
        assert t[1..][1..] == t[2..];
        if |t| == 2 {
          assert t == [ClosePort, CloseLog];
        }
      }
    }
  }

  /** A write of one data row. */
  predicate DataWrite(e: Effect) {
    e.WriteRow? && LineFilter.IsDataRow(e.fields)
  }

  /** The shape of what follows the start byte: data rows, then the teardown. */
  predicate StreamShape(t: seq<Effect>) {
    && |t| >= 3
    && t[|t| - 3..] == Teardown
    && forall k :: 0 <= k < |t| - 3 ==> DataWrite(t[k])
  }

  /** A leading data row does not change whether the rest has the stream shape. */
  lemma StreamShapeCons(t: seq<Effect>)
    requires |t| > 0 && DataWrite(t[0])
    ensures StreamShape(t) <==> StreamShape(t[1..])
  {
    var u := t[1..];
    if |t| >= 4 {
      assert u[|u| - 3..] == t[|t| - 3..];
      assert forall k :: 0 <= k < |u| - 3 ==> u[k] == t[k + 1];
      if StreamShape(u) {
        forall k | 0 <= k < |t| - 3
          ensures DataWrite(t[k])
        {
          if k > 0 { assert t[k] == u[k - 1]; }
        }
      }
    } else if |t| == 3 {
      assert t[|t| - 3..] == t;
      assert t[0] != Teardown[0];
    }
  }

  /** When the first effect is no data row, the stream shape is exactly the bare teardown. */
  lemma StreamShapeStop(t: seq<Effect>)
    requires |t| > 0 && !DataWrite(t[0])
    ensures StreamShape(t) <==> t == Teardown
  {
    if |t| > 3 {
      assert 0 < |t| - 3;
    } else if |t| == 3 {
      assert t[|t| - 3..] == t;
    }
  }

  /** The stream phase accepts exactly: data rows, then the stop byte, the port close and the log close. */
  lemma {:induction false} StreamingRuns(t: seq<Effect>)
    ensures RunFrom(Streaming, t) == Some(Finished) <==> StreamShape(t)
    decreases |t|
  {
    if |t| > 0 {
      if DataWrite(t[0]) {
        assert RunFrom(Streaming, t) == RunFrom(Streaming, t[1..]);
        StreamingRuns(t[1..]);
        StreamShapeCons(t);
      } else {
        StreamShapeStop(t);
        if t[0] == SendByte(StopByte) {
          assert RunFrom(Streaming, t) == RunFrom(StopSent, t[1..]);
          StopSentRuns(t[1..]);
          assert t == Teardown <==> t[1..] == [ClosePort, CloseLog] by {
            assert t == [t[0]] + t[1..];
          }
        } else {
          assert RunFrom(Streaming, t) == None;
        }
      }
    }
  }

  /** The stream shape of what follows two leading effects, written out on the whole trace. */
  lemma StreamShapeAfterTwo(t: seq<Effect>)
    requires |t| >= 2
    ensures StreamShape(t[2..]) <==>
      && |t| >= 5
      && t[|t| - 3..] == Teardown
      && forall k :: 2 <= k < |t| - 3 ==> DataWrite(t[k])
  {
    var rest := t[2..];
    if |t| >= 5 {
      assert rest[|rest| - 3..] == t[|t| - 3..];
      assert forall k :: 2 <= k < |t| ==> t[k] == rest[k - 2];
    }
  }

  /** A trace that does not open with the header and the start byte is no complete session. */
  lemma BadOpeningIncomplete(t: seq<Effect>)
    requires !(|t| >= 2 && t[0] == WriteRow(LineFilter.Header) && t[1] == SendByte(StartByte))
    ensures !Complete(t)
  {
    if |t| >= 1 && t[0] == WriteRow(LineFilter.Header) {
      assert RunFrom(Ready, t) == RunFrom(HeaderWritten, t[1..]);
      if |t| >= 2 {
        assert t[1..][0] == t[1];
      }
    }
  }

  /**
   The session protocol, stated as a shape: the header row, then the start
   byte, then only data rows, then the stop byte, the port close and the log
   close, in that order and nothing else.
   */
  lemma CompleteExactly(t: seq<Effect>)
    ensures Complete(t) <==>
      && |t| >= 5
      && t[0] == WriteRow(LineFilter.Header)
      && t[1] == SendByte(StartByte)
      && t[|t| - 3..] == Teardown
      && forall k :: 2 <= k < |t| - 3 ==> DataWrite(t[k])
  {
    if |t| >= 2 && t[0] == WriteRow(LineFilter.Header) && t[1] == SendByte(StartByte) {
      assert RunFrom(Ready, t) == RunFrom(Streaming, t[2..]) by {
        assert t[1..][0] == t[1];
        assert t[1..][1..] == t[2..];
      }
      StreamingRuns(t[2..]);
      StreamShapeAfterTwo(t);
    } else {
      BadOpeningIncomplete(t);
    }
  }

  /**
   In a complete session the header is written once, first; the start byte is
   sent once, second; and the stop byte is sent once, just before the port and
   the log are closed. No data row can be mistaken for the header, because a
   data row starts with a time stamp.
   */
  lemma CompleteMarkersOnce(t: seq<Effect>)
    requires Complete(t)
    ensures forall k :: 0 <= k < |t| && t[k] == WriteRow(LineFilter.Header) ==> k == 0
    ensures forall k :: 0 <= k < |t| && t[k] == SendByte(StartByte) ==> k == 1
    ensures forall k :: 0 <= k < |t| && t[k] == SendByte(StopByte) ==> k == |t| - 3
  {
    CompleteExactly(t);
    assert !Timestamp.StampShape(LineFilter.Header[0]);
    assert t[|t| - 3] == Teardown[0] && t[|t| - 2] == Teardown[1] && t[|t| - 1] == Teardown[2];
  }

  /** The row contents a trace appends to the log file, in order. */
  function Logged(trace: seq<Effect>): seq<seq<string>>
    decreases |trace|
  {
    if |trace| == 0 then []
    else (if trace[0].WriteRow? then [trace[0].fields] else []) + Logged(trace[1..])
  }

  lemma {:induction false} LoggedAppend(a: seq<Effect>, b: seq<Effect>)
    ensures Logged(a + b) == Logged(a) + Logged(b)
    decreases |a|
  {
    if |a| > 0 {
      assert (a + b)[1..] == a[1..] + b;
      LoggedAppend(a[1..], b);
    } else {
      assert a + b == b;
    }
  }

  /** One effect in front: its row, if it writes one, then the rest's rows. */
  lemma LoggedCons(e: Effect, t: seq<Effect>)
    ensures Logged([e] + t) == (if e.WriteRow? then [e.fields] else []) + Logged(t)
  {
    assert ([e] + t)[1..] == t;
  }

  lemma {:induction false} LoggedWrites(rows: seq<seq<string>>)
    ensures Logged(Writes(rows)) == rows
    decreases |rows|
  {
    if |rows| > 0 {
      var tail := Writes(rows[1..]);
      assert Writes(rows) == [WriteRow(rows[0])] + tail;
      LoggedCons(WriteRow(rows[0]), tail);
      LoggedWrites(rows[1..]);
      assert rows == [rows[0]] + rows[1..];
    }
  }

  /** The effects of the `finally` block, by how it ended. */
  function Closing(shutdown: Shutdown): (r: seq<Effect>)
    ensures |r| > 0 && r[|r| - 1] == CloseLog
    ensures forall k :: 0 <= k < |r| ==> !r[k].WriteRow?
    ensures CloseLog !in r[..|r| - 1]
    ensures SendByte(StopByte) in r <==> shutdown != StopByteFault
    ensures ClosePort in r <==> shutdown == Clean
    ensures SendByte(StartByte) !in r
  {
    match shutdown
    case Clean => Teardown
    case StopByteFault => [CloseLog]
    case PortCloseFault => [SendByte(StopByte), CloseLog]
  }

  /**
   Which markers a trace holds: the start byte, the stop byte, the port close
   and the log close each occur exactly when the flag says so, and a non-empty
   trace ends with its only log close.
   */
  predicate Markers(t: seq<Effect>, started: bool, stopped: bool, portClosed: bool, logClosed: bool) {
    && (SendByte(StartByte) in t <==> started)
    && (SendByte(StopByte) in t <==> stopped)
    && (ClosePort in t <==> portClosed)
    && (CloseLog in t <==> logClosed)
    && (t != [] ==> t[|t| - 1] == CloseLog && CloseLog !in t[..|t| - 1])
  }

  /** The effects of a session that reached its loop, wrote `rows` and then ran its `finally` block. */
  function OpenedTrace(rows: seq<seq<string>>, shutdown: Shutdown): seq<Effect> {
    [WriteRow(LineFilter.Header), SendByte(StartByte)] + Writes(rows) + Closing(shutdown)
  }

  /** With a clean `finally` block, data rows written between the start and the teardown form a complete session. */
  lemma OpenedTraceComplete(rows: seq<seq<string>>)
    requires forall k :: 0 <= k < |rows| ==> LineFilter.IsDataRow(rows[k])
    ensures Complete(OpenedTrace(rows, Clean))
  {
    var trace := OpenedTrace(rows, Clean);
    var w := Writes(rows);
    CompleteExactly(trace);
    assert forall k :: 2 <= k < |trace| - 3 ==> trace[k] == w[k - 2];
    assert trace[|trace| - 3..] == Teardown;
  }

  /** A session that reached its loop follows the whole protocol exactly when its `finally` block succeeded. */
  lemma OpenedTraceCompleteIff(rows: seq<seq<string>>, shutdown: Shutdown)
    requires forall k :: 0 <= k < |rows| ==> LineFilter.IsDataRow(rows[k])
    ensures Complete(OpenedTrace(rows, shutdown)) <==> shutdown == Clean
  {
    if shutdown == Clean {
      OpenedTraceComplete(rows);
    } else {
      OpenedTraceMarkers(rows, shutdown);
      CompleteClosesPort(OpenedTrace(rows, shutdown));
    }
  }

  /** However the `finally` block ended, the log holds the header and then exactly the given rows. */
  lemma OpenedTraceLogs(rows: seq<seq<string>>, shutdown: Shutdown)
    ensures Logged(OpenedTrace(rows, shutdown)) == [LineFilter.Header] + rows
  {
    var head := [WriteRow(LineFilter.Header), SendByte(StartByte)];
    LoggedAppend(head, Writes(rows));
    LoggedAppend(head + Writes(rows), Closing(shutdown));
    LoggedWrites(rows);
    assert head[1..] == [SendByte(StartByte)] && head[1..][1..] == [];
    assert Logged(head) == [LineFilter.Header];
    LoggedNoWrites(Closing(shutdown));
  }

  /** A trace without row writes logs nothing. */
  lemma {:induction false} LoggedNoWrites(t: seq<Effect>)
    requires forall k :: 0 <= k < |t| ==> !t[k].WriteRow?
    ensures Logged(t) == []
    decreases |t|
  {
    if |t| > 0 {
      assert forall k :: 0 <= k < |t[1..]| ==> t[1..][k] == t[k + 1];
      LoggedNoWrites(t[1..]);
    }
  }

  /**
   Which markers a session that reached its loop sends: always the start byte,
   the stop byte unless sending it failed, the port close only when the whole
   `finally` block succeeded; and the log is closed last.
   */
  lemma OpenedTraceMarkers(rows: seq<seq<string>>, shutdown: Shutdown)
    ensures OpenedTrace(rows, shutdown) != []
    ensures Markers(OpenedTrace(rows, shutdown), true, shutdown != StopByteFault, shutdown == Clean, true)
  {
    var head := [WriteRow(LineFilter.Header), SendByte(StartByte)];
    var w := Writes(rows);
    var c := Closing(shutdown);
    var t := OpenedTrace(rows, shutdown);
    assert t == (head + w) + c;
    assert forall x :: x in t <==> x in head || x in w || x in c;
    assert forall x :: x in w ==> x.WriteRow?;
    assert t[1] == SendByte(StartByte);
    assert t[..|t| - 1] == (head + w) + c[..|c| - 1];
  }

  /** A complete session closes its port. */
  lemma CompleteClosesPort(t: seq<Effect>)
    ensures Complete(t) ==> ClosePort in t
  {
    if Complete(t) {
      CompleteExactly(t);
      assert t[|t| - 2] == Teardown[1];
    }
  }

  /**
   A session that stopped before its loop: the port-not-found error is reported
   and swallowed; any later fault propagates with the port left open and the log,
   if it was opened, closed.
   */
  function EarlyExit(startup: Startup): (r: SessionRun)
    requires startup != Polling
    ensures startup == NoPort ==> r == SessionRun([], Returned)
    ensures !Complete(r.trace)
    ensures Logged(r.trace) <= [LineFilter.Header]
    ensures Markers(r.trace, false, false, false, startup != NoPort && startup != FaultBeforeLog)
    ensures r.outcome == Raised <==> startup != NoPort
  {
    match startup
    case NoPort => SessionRun([], Returned)
    case FaultBeforeLog => SessionRun([], Raised)
    case HeaderFault =>
      var t := [CloseLog];
      CompleteClosesPort(t);
      assert Logged(t) == [] by { assert t[1..] == []; }
      SessionRun(t, Raised)
    case StartByteFault =>
      var t := [WriteRow(LineFilter.Header), CloseLog];
      CompleteClosesPort(t);
      assert Logged(t) == [LineFilter.Header] by {
        assert t[1..] == [CloseLog] && t[1..][1..] == [];
        assert Logged(t[1..]) == [];
      }
      SessionRun(t, Raised)
  }

  /**
   A session that reached its loop and wrote `rows`: it is complete exactly when
   its `finally` block succeeded, and it re-raises when the loop ended by a
   fault or the `finally` block raised.
   */
  function PolledSession(rows: seq<seq<string>>, ending: Ending, shutdown: Shutdown): (r: SessionRun)
    requires forall k :: 0 <= k < |rows| ==> LineFilter.IsDataRow(rows[k])
    ensures Complete(r.trace) <==> shutdown == Clean
    ensures Logged(r.trace) == [LineFilter.Header] + rows
    ensures r.trace != []
    ensures Markers(r.trace, true, shutdown != StopByteFault, shutdown == Clean, true)
    ensures r.outcome == Raised <==> ending == ReadFault || shutdown != Clean
  {
    OpenedTraceLogs(rows, shutdown);
    OpenedTraceMarkers(rows, shutdown);
    OpenedTraceCompleteIff(rows, shutdown);
    var t := OpenedTrace(rows, shutdown);
    var raised := ending == ReadFault || shutdown != Clean;
    SessionRun(t, if raised then Raised else Returned)
  }

  /**
   One logging session. If the port cannot be opened the session reports it and
   returns without touching the log or the port. A fault after the port opened
   but before the loop (the settle delay, opening the log, writing the header,
   sending the start byte) propagates: `ser.close()` is not called, and the log is
   closed if it had been opened. Otherwise the session writes the header, sends
   the start byte and writes one row per kept line; then its `finally` block,
   however the loop ended, tries to send the stop byte and call `ser.close()`, and
   the log is closed. The session re-raises when the loop ended by a fault other
   than a stop request or a keyboard interrupt, or when its `finally` block
   itself raised.
   */
  function Session(startup: Startup, polls: seq<Poll>, ending: Ending, shutdown: Shutdown, isFloat: string -> bool): (r: SessionRun)
    requires ClocksValid(polls)
    ensures startup == NoPort ==> r == SessionRun([], Returned)
    ensures Complete(r.trace) <==> startup == Polling && shutdown == Clean
    ensures startup == Polling ==> Logged(r.trace) == [LineFilter.Header] + Rows(polls, isFloat)
    ensures startup != Polling ==> Logged(r.trace) <= [LineFilter.Header]
    ensures Markers(r.trace,
      startup == Polling,
      startup == Polling && shutdown != StopByteFault,
      startup == Polling && shutdown == Clean,
      startup != NoPort && startup != FaultBeforeLog)
    ensures r.outcome == Raised <==>
      startup != NoPort && (startup != Polling || ending == ReadFault || shutdown != Clean)
  {
    if startup == Polling then PolledSession(Rows(polls, isFloat), ending, shutdown)
    else EarlyExit(startup)
  }

  /** How the loop ended changes whether the session re-raises, never what it did to the port and log. */
  lemma TeardownRegardlessOfEnding(startup: Startup, polls: seq<Poll>, e1: Ending, e2: Ending, shutdown: Shutdown, isFloat: string -> bool)
    requires ClocksValid(polls)
    ensures Session(startup, polls, e1, shutdown, isFloat).trace == Session(startup, polls, e2, shutdown, isFloat).trace
  {
  }
}
