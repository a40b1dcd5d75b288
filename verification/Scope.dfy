/**
 The state of the real-time oscilloscope window: the list of analog input
 channels, one rolling sample buffer and one plot line per channel, and the
 acquisition task with its run flag. The widgets, the drawing and the
 acquisition driver itself are abstracted: the driver's answers (did the task
 start, what did a read return) are parameters.
 */
module Scope {
  import opened Wrappers
  import RollingBuffer

  /** Samples shown per channel, and so the fixed length of every rolling buffer. */
  const DisplaySamples: nat := 1000

  /** Plot colours, handed out to channels in order and reused cyclically. */
  const Colors: seq<char> := ['b', 'g', 'r', 'c', 'm', 'y', 'k']

  /** The channel the window starts with. */
  const InitialChannel: string := "ai0"

  /** A buffer as created for a new channel: `DisplaySamples` zeros. */
  function EmptyBuffer(): (b: seq<real>)
    ensures |b| == DisplaySamples
    ensures forall k :: 0 <= k < |b| ==> b[k] == 0.0
  {
    seq(DisplaySamples, _ => 0.0)
  }

  /** One plotted line: its legend and its colour code. */
  datatype PlotLine = PlotLine(legend: string, color: char)

  /**
   The window's state. `task` is the channel list the current acquisition task
   was created for, or `None` when there is no task.
   */
  datatype Window = Window(
    channels: seq<string>,
    queues: seq<seq<real>>,
    lines: seq<PlotLine>,
    task: Option<seq<string>>,
    running: bool)

  /** How an attempt to (re)start the acquisition task ended. */
  datatype StartOutcome =
    | Started               // the new task was created, configured and started
    | FailedBeforeNewTask   // closing the old task or creating the new one raised
    | FailedAfterNewTask    // the new task exists but adding channels, timing or start raised

  /** What one driver read returned. */
  datatype Read =
    | ReadFailed                    // the read raised
    | Flat(samples: seq<real>)      // a one-dimensional list, as returned for a one-channel task
    | Nested(rows: seq<seq<real>>)  // one list of samples per channel

  predicate NoDuplicates(s: seq<string>) {
    forall i, j :: 0 <= i < j < |s| ==> s[i] != s[j]
  }

  /**
   `setup_lines`: starting from no lines, one line per channel is appended in
   channel order, its legend the channel name and its colour taken cyclically.
   */
  function SetupLines(channels: seq<string>): (lines: seq<PlotLine>)
    ensures |lines| == |channels|
    ensures forall i :: 0 <= i < |lines| ==> lines[i].legend == channels[i]
    ensures forall i :: 0 <= i < |lines| ==> lines[i].color == Colors[i % |Colors|]
    decreases |channels|
  {
    if |channels| == 0 then []
    else
      var n := |channels| - 1;
      SetupLines(channels[..n]) + [PlotLine(channels[n], Colors[n % |Colors|])]
  }

  /**
   Rebuilding the lines after a channel is appended keeps every existing line,
   legend and colour, and adds one line for the new channel.
   */
  lemma SetupLinesAppend(channels: seq<string>, name: string)
    ensures SetupLines(channels + [name]) ==
      SetupLines(channels) + [PlotLine(name, Colors[|channels| % |Colors|])]
  {
    assert (channels + [name])[..|channels|] == channels;
  }

  /** Colour indices of channels fewer than seven apart differ. */
  lemma CycleDistinct(i: nat, j: nat)
    requires i < j && j - i < |Colors|
    ensures Colors[i % |Colors|] != Colors[j % |Colors|]
  {
    assert i % 7 != j % 7;
  }

  /** Any seven consecutive channels are drawn in seven different colours. */
  lemma NeighbourColorsDiffer(channels: seq<string>, i: nat, j: nat)
    requires i < j < |channels| && j - i < |Colors|
    ensures SetupLines(channels)[i].color != SetupLines(channels)[j].color
  {
    CycleDistinct(i, j);
  }

  /** Colours repeat with period seven. */
  lemma ColorsRepeat(channels: seq<string>, i: nat)
    requires i + |Colors| < |channels|
    ensures SetupLines(channels)[i + |Colors|].color == SetupLines(channels)[i].color
  {
    assert (i + 7) % 7 == i % 7;
  }

  /** The consistency the window keeps between its parts. */
  predicate Inv(s: Window) {
    && |s.channels| == |s.queues|
    && NoDuplicates(s.channels)
    && (forall i :: 0 <= i < |s.channels| ==> s.channels[i] != [])
    && (forall i :: 0 <= i < |s.queues| ==> |s.queues[i]| == DisplaySamples)
    && (s.channels != [] ==> s.lines == SetupLines(s.channels))
    && (s.task.Some? ==> s.channels != [])
    && (s.running && s.task.Some? ==> s.task.value == s.channels)
  }

  /**
   `start_task`: with no channels nothing happens; otherwise the old task is
   closed and a new one is created for the current channels, and the run flag
   says whether that succeeded.
   */
  function StartTask(s: Window, outcome: StartOutcome): (r: Window)
    ensures s.channels == [] ==> r == s
    ensures s.channels != [] ==> (r.running <==> outcome == Started)
    ensures r.channels == s.channels && r.queues == s.queues && r.lines == s.lines
    ensures r.running && s.channels != [] ==> r.task == Some(s.channels)
    ensures Inv(s) ==> Inv(r)
  {
    if s.channels == [] then s
    else
      match outcome
      case Started => s.(task := Some(s.channels), running := true)
      case FailedBeforeNewTask => s.(running := false)
      case FailedAfterNewTask => s.(task := Some(s.channels), running := false)
  }

  /** The window as its constructor leaves it: one channel, its lines drawn, the task start attempted. */
  function Init(outcome: StartOutcome): (r: Window)
    ensures Inv(r)
    ensures r.channels == [InitialChannel] && r.queues == [EmptyBuffer()]
    ensures r.running <==> outcome == Started
  {
    StartTask(Window([InitialChannel], [EmptyBuffer()], SetupLines([InitialChannel]), None, false), outcome)
  }

  /** The window with `name` appended to its channels, a fresh buffer for it and the lines rebuilt. */
  function Grown(s: Window, name: string): Window {
    var channels := s.channels + [name];
    s.(channels := channels, queues := s.queues + [EmptyBuffer()], lines := SetupLines(channels))
  }

  /**
   Appending a non-empty, unlisted channel keeps the channels duplicate-free,
   and restarting the task afterwards leaves the window consistent.
   */
  lemma GrownConsistent(s: Window, name: string, outcome: StartOutcome)
    requires name != [] && name !in s.channels
    ensures NoDuplicates(s.channels) ==> NoDuplicates(Grown(s, name).channels)
    ensures Inv(s) ==> Inv(StartTask(Grown(s, name), outcome))
  {
    var channels := s.channels + [name];
    assert forall i :: 0 <= i < |s.channels| ==> channels[i] == s.channels[i];
    assert channels[|s.channels|] == name;
  }

  /**
   `add_channel`: a non-empty name not yet listed is appended together with a
   fresh zero buffer; the lines are rebuilt and the task restarted. Any other
   name leaves the window as it was.
   */
  function AddChannel(s: Window, name: string, outcome: StartOutcome): (r: Window)
    ensures name != [] && name !in s.channels ==>
      && r.channels == s.channels + [name]
      && r.queues == s.queues + [EmptyBuffer()]
      && r.lines == SetupLines(r.channels)
      && r.lines == SetupLines(s.channels) + [PlotLine(name, Colors[|s.channels| % |Colors|])]
      && (r.running <==> outcome == Started)
    ensures !(name != [] && name !in s.channels) ==> r == s
    ensures name != [] ==> name in r.channels
    ensures NoDuplicates(s.channels) ==> NoDuplicates(r.channels)
    ensures Inv(s) ==> Inv(r)
  {
    if name != [] && name !in s.channels then
      GrownConsistent(s, name, outcome);
      SetupLinesAppend(s.channels, name);
      StartTask(Grown(s, name), outcome)
    else s
  }

  /** `clear_channels`: drops every channel and buffer and closes the task; the run flag and lines are left. */
  function ClearChannels(s: Window): (r: Window)
    ensures r.channels == [] && r.queues == [] && r.task == None
    ensures r.running == s.running && r.lines == s.lines
    ensures Inv(r)
  {
    s.(channels := [], queues := [], task := None)
  }

  /** The smallest of three numbers. */
  function Min3(a: nat, b: nat, c: nat): nat {
    if a <= b && a <= c then a else if b <= c then b else c
  }

  /**
   The loop of `update_plot` from row `i` on: row `k` extends buffer `k` and
   then redraws line `k`. Indexing a missing buffer or line raises, which ends
   the loop early with the buffers extended so far. Returns the buffers and
   whether the loop ran to its end.
   */
  function Route(queues: seq<seq<real>>, nLines: nat, rows: seq<seq<real>>, i: nat): (r: (seq<seq<real>>, bool))
    requires i <= |rows| && i <= nLines
    requires forall k :: 0 <= k < |queues| ==> |queues[k]| <= DisplaySamples
    ensures |r.0| == |queues|
    ensures r.1 <==> |rows| <= nLines && (i == |rows| || |rows| <= |queues|)
    ensures forall k :: 0 <= k < |queues| ==>
      r.0[k] == if i <= k < Min3(|rows|, |queues|, nLines + 1)
                then RollingBuffer.Extend(queues[k], rows[k], DisplaySamples)
                else queues[k]
    decreases |rows| - i
  {
    if i == |rows| then (queues, true)
    else if i >= |queues| then (queues, false)
    else
      var extended := queues[i := RollingBuffer.Extend(queues[i], rows[i], DisplaySamples)];
      if i == nLines then (extended, false)
      else Route(extended, nLines, rows, i + 1)
  }

  /** The driver hands a one-channel task's samples back flat, never nested. */
  predicate ReadFits(s: Window, read: Read) {
    read.Nested? && s.running && s.task.Some? ==> |s.channels| != 1
  }

  /**
   `update_plot`, one animation tick. Without a running task nothing happens. A
   failed read clears the run flag. Otherwise the samples are routed to the
   buffers: with one channel the flat list is that channel's batch, with several
   row `k` goes to channel `k`; an error while routing clears the run flag.
   */
  function UpdatePlot(s: Window, read: Read): (r: Window)
    requires ReadFits(s, read)
    requires forall k :: 0 <= k < |s.queues| ==> |s.queues[k]| <= DisplaySamples
    ensures !s.running || s.task.None? ==> r == s
    ensures s.running && s.task.Some? && read.ReadFailed? ==> r == s.(running := false)
    ensures r.channels == s.channels && r.lines == s.lines && r.task == s.task
    ensures |r.queues| == |s.queues|
    ensures r.running ==> s.running
    ensures Inv(s) ==> Inv(r)
  {
    if !s.running || s.task.None? then s
    else
      match read
      case ReadFailed => s.(running := false)
      case Flat(samples) =>
        if |s.channels| == 1 then
          var routed := Route(s.queues, |s.lines|, [samples], 0);
          s.(queues := routed.0, running := routed.1)
        else if samples == [] then s
        else s.(running := false)   // a sample is not a list: the first extend raises
      case Nested(rows) =>
        var routed := Route(s.queues, |s.lines|, rows, 0);
        s.(queues := routed.0, running := routed.1)
  }

  /**
   With a running task and the window consistent, a read of one batch per
   channel extends channel `k`'s buffer with batch `k` and keeps running; missing
   batches leave their buffers alone, and surplus batches stop the acquisition
   after every listed channel was extended.
   */
  lemma UpdatePlotRoutes(s: Window, rows: seq<seq<real>>)
    requires Inv(s) && s.running && s.task.Some? && |s.channels| != 1
    ensures UpdatePlot(s, Nested(rows)).running <==> |rows| <= |s.channels|
    ensures forall k :: 0 <= k < |s.channels| ==>
      UpdatePlot(s, Nested(rows)).queues[k] ==
        if k < |rows| then RollingBuffer.Extend(s.queues[k], rows[k], DisplaySamples) else s.queues[k]
  {
  }

  /** With a single channel the flat read is that channel's batch. */
  lemma UpdatePlotSingle(s: Window, samples: seq<real>)
    requires Inv(s) && s.running && s.task.Some? && |s.channels| == 1
    ensures UpdatePlot(s, Flat(samples)).queues == [RollingBuffer.Extend(s.queues[0], samples, DisplaySamples)]
    ensures UpdatePlot(s, Flat(samples)).running
  {
  }

  /** Once the channels are cleared, ticks change nothing and a restart is refused until a channel is added. */
  lemma ClearedIsIdle(s: Window, read: Read, outcome: StartOutcome)
    ensures UpdatePlot(ClearChannels(s), read) == ClearChannels(s)
    ensures StartTask(ClearChannels(s), outcome) == ClearChannels(s)
  {
  }
}
