/** Starting and stopping the monitor: BM::start, BM::stop and monitorThreadFunc (bm.cpp) over
    TcpProxy::startSniffing, terminate and captureLoop (tcp_proxy.cpp), line by line and interleaved.

    One caller uses start and stop; the threads they create run alongside. Threads and pcap handles are
    numbered as they are created. */
module Lifecycle {
  import opened Bytes

  datatype MonitorPc = AtLoop | Receiving | Parsing | Sleeping | ClearingRequest | ClearingActive

  datatype CapturePc = AtCheck | Dispatching

  /** Which of the two callers terminate() returns to. */
  datatype Caller = InStart | InStop

  datatype Controller =
    | Idle
    | ClearRunning(from: Caller)     // terminate()
    | BreakLoop(from: Caller)
    | JoinCapture(from: Caller)
    | CloseHandle(from: Caller)
    | NullHandle(from: Caller)
    | JoinOldMonitor                 // start()
    | ResettingParser
    | OpenHandle                     // startSniffing()
    | InstallFilter
    | SetRunning
    | SpawnCapture
    | SetActive                      // start() again
    | ClearRequest
    | SpawnMonitor
    | RequestStop                    // stop()
    | JoinMonitor
    | ClearActive
    | ClearStopRequest

  /** `monitors` and `captures` are the threads that are running; `monitorThread` and `captureThread` are
      the joinable std::thread objects; `openHandles` are the pcap handles not yet closed. `fault` records
      an operation with no defined outcome: assigning over a joinable thread, or using a closed handle. */
  datatype State = State(
    active: bool, request: bool, running: bool,
    handle: Option<nat>, openHandles: set<nat>,
    captureThread: Option<nat>, monitorThread: Option<nat>,
    captures: map<nat, CapturePc>, monitors: map<nat, MonitorPc>,
    ctl: Controller, nextId: nat, fault: bool, filterFailed: bool)

  const INITIAL := State(false, false, false, None, {}, None, None, map[], map[], Idle, 0, false, false)

  datatype Action =
    | Start
    | Stop
    | Control(ok: bool)           // the caller's next line; `ok` is what a pcap call returns
    | Monitor(id: nat, data: bool) // a monitor thread's next line; `data` says whether a payload was queued
    | CaptureStep(id: nat)        // a capture thread's next line

  predicate HandleUsable(s: State) {
    s.handle.Some? && s.handle.value in s.openHandles
  }

  function Returned(s: State, from: Caller): State {
    s.(ctl := if from == InStart then JoinOldMonitor else JoinMonitor)
  }

  /** TcpProxy::terminate. A join waits until the thread has ended. */
  function TerminateStep(s: State): (n: State)
    requires InTerminate(s.ctl)
    ensures n.filterFailed == s.filterFailed && (s.fault ==> n.fault)
  {
    match s.ctl
    case ClearRunning(c) => s.(running := false, ctl := BreakLoop(c))
    case BreakLoop(c) => s.(fault := s.fault || (s.handle.Some? && !HandleUsable(s)), ctl := JoinCapture(c))
    case JoinCapture(c) =>
      if s.captureThread.None? then s.(ctl := CloseHandle(c))
      else if s.captureThread.value in s.captures then s
      else s.(captureThread := None, ctl := CloseHandle(c))
    case CloseHandle(c) =>
      if s.handle.None? then Returned(s, c)
      else
        s.(fault := s.fault || !HandleUsable(s), openHandles := s.openHandles - {s.handle.value}, ctl := NullHandle(c))
    case NullHandle(c) => Returned(s.(handle := None), c)
  }

  predicate InTerminate(ctl: Controller) {
    ctl.ClearRunning? || ctl.BreakLoop? || ctl.JoinCapture? || ctl.CloseHandle? || ctl.NullHandle?
  }

  predicate InStopping(ctl: Controller) {
    ctl.RequestStop? || ctl.JoinMonitor? || ctl.ClearActive? || ctl.ClearStopRequest?
  }

  /** BM::start with TcpProxy::startSniffing inside it. */
  function StartStep(s: State, ok: bool): (n: State)
    requires s.ctl != Idle && !InTerminate(s.ctl) && !InStopping(s.ctl)
    ensures (s.filterFailed ==> n.filterFailed) && (s.fault ==> n.fault)
    ensures n.filterFailed && !s.filterFailed ==> s.ctl == InstallFilter && !ok
  {
    match s.ctl
    case JoinOldMonitor =>
      if s.monitorThread.None? then s.(ctl := ResettingParser)
      else if s.monitorThread.value in s.monitors then s
      else s.(monitorThread := None, ctl := ResettingParser)
    case ResettingParser => s.(ctl := OpenHandle)
    case OpenHandle =>
      if ok then
        s.(handle := Some(s.nextId), openHandles := s.openHandles + {s.nextId}, nextId := s.nextId + 1,
           ctl := InstallFilter)
      else s.(handle := None, ctl := Idle)
    case InstallFilter =>
      if ok then s.(ctl := SetRunning)
      else
        s.(openHandles := s.openHandles - (if s.handle.Some? then {s.handle.value} else {}), filterFailed := true,
           ctl := Idle)
    case SetRunning => s.(running := true, ctl := SpawnCapture)
    case SpawnCapture =>
      s.(fault := s.fault || s.captureThread.Some?, captureThread := Some(s.nextId),
         captures := s.captures[s.nextId := AtCheck], nextId := s.nextId + 1, ctl := SetActive)
    case SetActive => s.(active := true, ctl := ClearRequest)
    case ClearRequest => s.(request := false, ctl := SpawnMonitor)
    case SpawnMonitor =>
      s.(fault := s.fault || s.monitorThread.Some?, monitorThread := Some(s.nextId),
         monitors := s.monitors[s.nextId := AtLoop], nextId := s.nextId + 1, ctl := Idle)
  }

  /** BM::stop. */
  function StopStep(s: State): (n: State)
    requires InStopping(s.ctl)
    ensures n.filterFailed == s.filterFailed && (s.fault ==> n.fault)
  {
    match s.ctl
    case RequestStop => s.(request := true, ctl := ClearRunning(InStop))
    case JoinMonitor =>
      if s.monitorThread.None? then s.(ctl := ClearActive)
      else if s.monitorThread.value in s.monitors then s
      else s.(monitorThread := None, ctl := ClearActive)
    case ClearActive => s.(active := false, ctl := ClearStopRequest)
    case ClearStopRequest => s.(request := false, ctl := Idle)
  }

  function ControlStep(s: State, ok: bool): (n: State)
    ensures (s.filterFailed ==> n.filterFailed) && (s.fault ==> n.fault)
  {
    if s.ctl == Idle then s
    else if InTerminate(s.ctl) then TerminateStep(s)
    else if InStopping(s.ctl) then StopStep(s)
    else StartStep(s, ok)
  }

  function NextMonitorPc(pc: MonitorPc, request: bool, data: bool): MonitorPc {
    match pc
    case AtLoop => if request then ClearingRequest else Receiving
    case Receiving => if data then Parsing else Sleeping
    case Parsing => Sleeping
    case Sleeping => AtLoop
    case ClearingRequest => ClearingActive
    case ClearingActive => ClearingActive
  }

  /** Leaving the loop, the thread clears the request, then the active flag, and ends. */
  function MonitorStep(s: State, id: nat, data: bool): (n: State)
    requires id in s.monitors
    ensures n.filterFailed == s.filterFailed && (s.fault ==> n.fault)
  {
    var pc := s.monitors[id];
    var next := NextMonitorPc(pc, s.request, data);
    s.(request := s.request && pc != ClearingRequest,
       active := s.active && pc != ClearingActive,
       monitors := if pc == ClearingActive then s.monitors - {id} else s.monitors[id := next])
  }

  /** pcap_dispatch uses the handle for as long as it runs. */
  function CaptureThreadStep(s: State, id: nat): (n: State)
    requires id in s.captures
    ensures n.filterFailed == s.filterFailed && (s.fault ==> n.fault)
  {
    match s.captures[id]
    case AtCheck =>
      if s.running then s.(captures := s.captures[id := Dispatching]) else s.(captures := s.captures - {id})
    case Dispatching => s.(fault := s.fault || !HandleUsable(s), captures := s.captures[id := AtCheck])
  }

  function Next(s: State, a: Action): (n: State)
    ensures (s.filterFailed ==> n.filterFailed) && (s.fault ==> n.fault)
  {
    match a
    case Start => if s.ctl == Idle && !s.active then s.(ctl := ClearRunning(InStart)) else s
    case Stop => if s.ctl == Idle && s.active then s.(ctl := RequestStop) else s
    case Control(ok) => ControlStep(s, ok)
    case Monitor(id, data) => if id in s.monitors then MonitorStep(s, id, data) else s
    case CaptureStep(id) => if id in s.captures then CaptureThreadStep(s, id) else s
  }

  function Exec(actions: seq<Action>): State {
    if actions == [] then INITIAL else Next(Exec(actions[..|actions| - 1]), actions[|actions| - 1])
  }

  // ---- The invariant ----

  predicate NoCapture(s: State) { s.captures == map[] && s.captureThread == None }

  predicate NoMonitor(s: State) { s.monitors == map[] && s.monitorThread == None }

  predicate NoHandle(s: State) { s.handle == None && s.openHandles == {} }

  predicate HandleOpen(s: State) { s.handle.Some? && s.openHandles == {s.handle.value} }

  predicate LiveCapture(s: State) {
    s.captureThread.Some? && s.captures.Keys == {s.captureThread.value} && s.running
  }

  predicate EndingCapture(s: State) {
    s.captureThread.Some? && s.captures.Keys <= {s.captureThread.value} && !s.running
  }

  predicate LiveMonitor(s: State) {
    && s.monitorThread.Some? && s.monitors.Keys == {s.monitorThread.value} && !s.request
    && !s.monitors[s.monitorThread.value].ClearingRequest? && !s.monitors[s.monitorThread.value].ClearingActive?
  }

  /** A stop has been requested, and the monitor thread has not missed it; on its way out it clears the request,
      then the active flag. */
  predicate EndingMonitor(s: State) {
    && s.monitorThread.Some? && s.monitors.Keys <= {s.monitorThread.value}
    && (if s.monitorThread.value in s.monitors
        then s.request == !s.monitors[s.monitorThread.value].ClearingActive? && s.active
        else !s.request && !s.active)
  }

  predicate Down(s: State) {
    NoCapture(s) && NoMonitor(s) && NoHandle(s)
  }

  predicate Up(s: State) {
    s.active && LiveCapture(s) && HandleOpen(s) && LiveMonitor(s)
  }

  datatype Phase = Absent | Present | Ending

  /** What has become of the capture thread, the monitor thread and the handle by each line. */
  function CapturePhase(s: State): Phase {
    match s.ctl
    case Idle => if s.active then Present else Absent
    case ClearRunning(c) => if c == InStop then Present else Absent
    case BreakLoop(c) => if c == InStop then Ending else Absent
    case JoinCapture(c) => if c == InStop then Ending else Absent
    case SetActive => Present
    case ClearRequest => Present
    case SpawnMonitor => Present
    case RequestStop => Present
    case _ => Absent
  }

  function MonitorPhase(s: State): Phase {
    match s.ctl
    case Idle => if s.active then Present else Absent
    case RequestStop => Present
    case JoinMonitor => Ending
    case _ => if InTerminate(s.ctl) && s.ctl.from == InStop then Ending else Absent
  }

  function HandlePhase(s: State): Phase {
    match s.ctl
    case Idle => if s.active then Present else Absent
    case CloseHandle(c) => if c == InStop then Present else Absent
    case NullHandle(c) => if c == InStop then Ending else Absent
    case InstallFilter => Present
    case SetRunning => Present
    case SpawnCapture => Present
    case _ => if CapturePhase(s) == Absent then Absent else Present
  }

  predicate CaptureOk(s: State, p: Phase) {
    match p
    case Absent => NoCapture(s)
    case Present => LiveCapture(s)
    case Ending => EndingCapture(s)
  }

  predicate MonitorOk(s: State, p: Phase) {
    match p
    case Absent => NoMonitor(s)
    case Present => s.active && LiveMonitor(s)
    case Ending => EndingMonitor(s)
  }

  predicate HandleOk(s: State, p: Phase) {
    match p
    case Absent => NoHandle(s)
    case Present => HandleOpen(s)
    case Ending => s.handle.Some? && s.openHandles == {}
  }

  /** The flags that the caller's position settles. */
  predicate FlagsOk(s: State) {
    match s.ctl
    case Idle => true
    case NullHandle(c) => c == InStop
    case SpawnCapture => !s.active && s.running
    case SetActive => true
    case ClearRequest => s.active
    case SpawnMonitor => s.active && !s.request
    case RequestStop => true
    case JoinMonitor => true
    case ClearActive => true
    case _ => (InTerminate(s.ctl) && s.ctl.from == InStop) || !s.active
  }

  predicate Good(s: State) {
    && !s.fault && FlagsOk(s)
    && CaptureOk(s, CapturePhase(s)) && MonitorOk(s, MonitorPhase(s)) && HandleOk(s, HandlePhase(s))
  }

  lemma TerminateInStart(s: State)
    requires Good(s) && InTerminate(s.ctl) && s.ctl.from == InStart
    ensures Good(TerminateStep(s))
  {
  }

  lemma JoinPartInStop(s: State)
    requires Good(s) && (s.ctl.ClearRunning? || s.ctl.BreakLoop? || s.ctl.JoinCapture?) && s.ctl.from == InStop
    ensures Good(TerminateStep(s))
  {
  }

  lemma ClosePartInStop(s: State)
    requires Good(s) && (s.ctl.CloseHandle? || s.ctl.NullHandle?) && s.ctl.from == InStop
    ensures Good(TerminateStep(s))
  {
  }

  lemma OpeningKeepsGood(s: State, ok: bool)
    requires Good(s) && (s.ctl == JoinOldMonitor || s.ctl == ResettingParser || s.ctl == OpenHandle)
    ensures Good(StartStep(s, ok))
  {
  }

  lemma SpawningKeepsGood(s: State, ok: bool)
    requires Good(s) && (s.ctl == InstallFilter || s.ctl == SetRunning || s.ctl == SpawnCapture)
    ensures var n := StartStep(s, ok); !n.filterFailed ==> Good(n)
  {
  }

  lemma ActivatingKeepsGood(s: State, ok: bool)
    requires Good(s) && (s.ctl == SetActive || s.ctl == ClearRequest || s.ctl == SpawnMonitor)
    ensures Good(StartStep(s, ok))
  {
  }

  lemma StartKeepsGood(s: State, ok: bool)
    requires Good(s) && s.ctl != Idle && !InTerminate(s.ctl) && !InStopping(s.ctl)
    ensures var n := StartStep(s, ok); !n.filterFailed ==> Good(n)
  {
    hide Good, StartStep;
    if s.ctl == JoinOldMonitor || s.ctl == ResettingParser || s.ctl == OpenHandle {
      OpeningKeepsGood(s, ok);
    } else if s.ctl == InstallFilter || s.ctl == SetRunning || s.ctl == SpawnCapture {
      SpawningKeepsGood(s, ok);
    } else {
      ActivatingKeepsGood(s, ok);
    }
  }

  lemma StopKeepsGood(s: State)
    requires Good(s) && InStopping(s.ctl)
    ensures Good(StopStep(s))
  {
  }

  /** A monitor thread touches only the two flags and its own place. */
  lemma MonitorFrame(s: State, id: nat, data: bool)
    requires id in s.monitors
    ensures var n := MonitorStep(s, id, data);
      n == s.(active := n.active, request := n.request, monitors := n.monitors)
  {
  }

  lemma LiveMonitorStaysLive(s: State, id: nat, data: bool)
    requires LiveMonitor(s) && id in s.monitors
    ensures var n := MonitorStep(s, id, data); LiveMonitor(n) && n.active == s.active
  {
  }

  lemma EndingMonitorKeepsEnding(s: State, id: nat, data: bool)
    requires EndingMonitor(s) && id in s.monitors
    ensures EndingMonitor(MonitorStep(s, id, data))
  {
  }

  lemma MonitorPart(s: State, id: nat, data: bool, p: Phase)
    requires MonitorOk(s, p) && id in s.monitors
    ensures var n := MonitorStep(s, id, data);
      && MonitorOk(n, p)
      && n == s.(active := n.active, request := n.request, monitors := n.monitors)
      && (p == Present ==> n.active)
  {
    MonitorFrame(s, id, data);
    hide MonitorStep, LiveMonitor, EndingMonitor;
    match p
    case Absent =>
    case Present => LiveMonitorStaysLive(s, id, data);
    case Ending => EndingMonitorKeepsEnding(s, id, data);
  }

  lemma MonitorKeepsGood(s: State, id: nat, data: bool)
    requires Good(s) && id in s.monitors
    ensures Good(MonitorStep(s, id, data))
  {
    MonitorPart(s, id, data, MonitorPhase(s));
    hide MonitorStep, LiveMonitor, EndingMonitor;
  }

  lemma CapturePart(s: State, id: nat, p: Phase)
    requires CaptureOk(s, p) && id in s.captures && HandleUsable(s)
    ensures var n := CaptureThreadStep(s, id);
      CaptureOk(n, p) && n == s.(captures := n.captures)
  {
  }

  lemma CaptureKeepsGood(s: State, id: nat)
    requires Good(s) && id in s.captures
    ensures Good(CaptureThreadStep(s, id))
  {
    assert HandleUsable(s);
    CapturePart(s, id, CapturePhase(s));
    hide CaptureThreadStep, LiveCapture, EndingCapture;
  }

  lemma CallsKeepGood(s: State, a: Action)
    requires Good(s) && (a.Start? || a.Stop?)
    ensures Good(Next(s, a))
  {
  }

  lemma StepKeepsGood(s: State, a: Action)
    requires Good(s) && !Next(s, a).filterFailed && !s.filterFailed
    ensures Good(Next(s, a))
  {
    hide Good, TerminateStep, StartStep, StopStep, MonitorStep, CaptureThreadStep;
    match a
    case Start => CallsKeepGood(s, a);
    case Stop => CallsKeepGood(s, a);
    case Control(ok) =>
      if s.ctl != Idle {
        if InTerminate(s.ctl) {
          if s.ctl.from == InStart {
            TerminateInStart(s);
          } else if s.ctl.CloseHandle? || s.ctl.NullHandle? {
            ClosePartInStop(s);
          } else {
            JoinPartInStop(s);
          }
        } else if InStopping(s.ctl) {
          StopKeepsGood(s);
        } else {
          StartKeepsGood(s, ok);
        }
      }
    case Monitor(id, data) => if id in s.monitors { MonitorKeepsGood(s, id, data); }
    case CaptureStep(id) => if id in s.captures { CaptureKeepsGood(s, id); }
  }

  /** While no filter installation has failed, every state of every interleaving is good. */
  lemma {:induction false} GoodHolds(actions: seq<Action>)
    requires !Exec(actions).filterFailed
    ensures Good(Exec(actions))
  {
    if actions == [] {
      assert Good(INITIAL);
    } else {
      var before := Exec(actions[..|actions| - 1]);
      GoodHolds(actions[..|actions| - 1]);
      hide Good, Next;
      StepKeepsGood(before, actions[|actions| - 1]);
    }
  }

  // ---- What every run keeps ----

  /** In every state of every interleaving up to a failed filter installation: nothing undefined has
      happened, at most one monitor and one capture thread run, the parser is never touched by two of
      them or by a monitor thread and the caller at once, and the pcap handle is open while a capture
      thread lives. */
  lemma LifecycleIsSafe(actions: seq<Action>)
    requires !Exec(actions).filterFailed
    ensures var s := Exec(actions);
      && !s.fault
      && |s.captures| <= 1 && |s.monitors| <= 1
      && (s.ctl.ResettingParser? ==> s.monitors == map[])
      && (s.captures != map[] ==> HandleUsable(s))
  {
    hide Exec;
    var s := Exec(actions);
    GoodHolds(actions);
    assert s.captures != map[] ==> HandleUsable(s);
    assert s.captures.Keys <= if s.captureThread.Some? then {s.captureThread.value} else {};
    assert s.monitors.Keys <= if s.monitorThread.Some? then {s.monitorThread.value} else {};
    OneKeyAtMost(s.captures.Keys, s.captureThread);
    OneKeyAtMost(s.monitors.Keys, s.monitorThread);
    assert |s.captures| == |s.captures.Keys| && |s.monitors| == |s.monitors.Keys|;
  }

  lemma OneKeyAtMost(keys: set<nat>, owner: Option<nat>)
    requires keys <= if owner.Some? then {owner.value} else {}
    ensures |keys| <= 1
  {
    if owner.Some? {
      assert keys == {} || keys == {owner.value};
    }
  }

  /** Between calls there are two situations only: running, with one thread of each kind on an open
      handle, or fully stopped, with both threads joined and the handle null. */
  lemma BetweenCalls(actions: seq<Action>)
    requires !Exec(actions).filterFailed && Exec(actions).ctl == Idle
    ensures var s := Exec(actions); if s.active then Up(s) else Down(s)
  {
    GoodHolds(actions);
  }

  /** A stop on an active monitor, when it returns, has joined both threads and cleared the handle. */
  lemma StopLeavesNothing(actions: seq<Action>)
    requires !Exec(actions).filterFailed && Exec(actions).ctl == ClearStopRequest
    ensures var n := Exec(actions + [Control(true)]); n.ctl == Idle && !n.active && !n.request && Down(n)
  {
    GoodHolds(actions);
    assert (actions + [Control(true)])[..|actions|] == actions;
  }

  // ---- Stopping comes to an end ----

  function MonitorRank(pc: MonitorPc): nat {
    match pc
    case Receiving => 6
    case Parsing => 5
    case Sleeping => 4
    case AtLoop => 3
    case ClearingRequest => 2
    case ClearingActive => 1
  }

  function CaptureRank(pc: CapturePc): nat {
    match pc
    case Dispatching => 2
    case AtCheck => 1
  }

  /** While stop() waits for a thread, every step of that thread brings its end nearer, whatever else
      has happened: the request is never lost, so at most six turns of it remain. */
  lemma JoinsComeToAnEnd(actions: seq<Action>, id: nat, data: bool)
    requires !Exec(actions).filterFailed
    ensures var s := Exec(actions);
      s.ctl == JoinMonitor && id in s.monitors ==>
        var n := Next(s, Monitor(id, data));
        if id in n.monitors then MonitorRank(n.monitors[id]) < MonitorRank(s.monitors[id])
        else !n.request && !n.active
    ensures var s := Exec(actions);
      s.ctl == JoinCapture(InStop) && id in s.captures ==>
        var n := Next(s, CaptureStep(id));
        id !in n.captures || CaptureRank(n.captures[id]) < CaptureRank(s.captures[id])
  {
    hide Exec;
    var s := Exec(actions);
    GoodHolds(actions);
    if s.ctl == JoinMonitor && id in s.monitors {
      assert EndingMonitor(s);
    }
  }

  /** While no stop is requested, a monitor thread goes round its loop, and parses exactly when it has received
      something. */
  lemma MonitorGoesRound(s: State, id: nat, data: bool)
    requires id in s.monitors && s.monitors[id] == AtLoop && !s.request
    ensures var n1 := Next(s, Monitor(id, data));
      var n2 := Next(n1, Monitor(id, data));
      var n3 := if data then Next(n2, Monitor(id, data)) else n2;
      && n1.monitors[id] == Receiving
      && (n2.monitors[id] == Parsing <==> data)
      && n3.monitors[id] == Sleeping
      && Next(n3, Monitor(id, data)) == s
  {
    hide Next;
    var n1 := Next(s, Monitor(id, data));
    LoopStep(s, id, data);
    var n2 := Next(n1, Monitor(id, data));
    LoopStep(n1, id, data);
    LoopStep(n2, id, data);
    if data {
      LoopStep(Next(n2, Monitor(id, data)), id, data);
    }
    assert s.monitors[id := AtLoop] == s.monitors;
  }

  lemma LoopStep(s: State, id: nat, data: bool)
    requires id in s.monitors && !s.request && !s.monitors[id].ClearingRequest? && !s.monitors[id].ClearingActive?
    ensures Next(s, Monitor(id, data))
            == s.(monitors := s.monitors[id := NextMonitorPc(s.monitors[id], false, data)])
  {
  }

  // ---- Starting comes up ----

  /** Lines of start() still to be executed, up to its return. */
  function StartLines(ctl: Controller): nat {
    match ctl
    case ClearRunning(c) => if c == InStart then 13 else 0
    case BreakLoop(c) => if c == InStart then 12 else 0
    case JoinCapture(c) => if c == InStart then 11 else 0
    case CloseHandle(c) => if c == InStart then 10 else 0
    case JoinOldMonitor => 9
    case ResettingParser => 8
    case OpenHandle => 7
    case InstallFilter => 6
    case SetRunning => 5
    case SpawnCapture => 4
    case SetActive => 3
    case ClearRequest => 2
    case SpawnMonitor => 1
    case _ => 0
  }

  /** start() is under way or has come through. */
  predicate Launched(s: State) {
    StartLines(s.ctl) > 0 || (s.ctl == Idle && s.active)
  }

  /** The caller executes a line, with success, or one of the threads does. */
  predicate Succeeds(a: Action) {
    a == Control(true) || a.Monitor? || a.CaptureStep?
  }

  function LinesRun(more: seq<Action>): nat {
    if more == [] then 0 else LinesRun(more[..|more| - 1]) + if more[|more| - 1].Control? then 1 else 0
  }

  function Less(n: nat, m: nat): nat { if m <= n then n - m else 0 }

  lemma LaunchLine(s: State)
    requires Good(s) && Launched(s) && !s.filterFailed
    ensures var n := Next(s, Control(true));
      Launched(n) && !n.filterFailed && StartLines(n.ctl) == Less(StartLines(s.ctl), 1)
  {
  }

  lemma ThreadsLeaveLaunch(s: State, a: Action)
    requires Good(s) && Launched(s) && (a.Monitor? || a.CaptureStep?)
    ensures var n := Next(s, a);
      Launched(n) && n.filterFailed == s.filterFailed && n.ctl == s.ctl
  {
    if a.Monitor? && a.id in s.monitors {
      MonitorPart(s, a.id, a.data, MonitorPhase(s));
    }
  }

  lemma {:induction false} LaunchGoesOn(actions: seq<Action>, more: seq<Action>)
    requires !Exec(actions).filterFailed && Launched(Exec(actions))
    requires forall i :: 0 <= i < |more| ==> Succeeds(more[i])
    ensures var n := Exec(actions + more);
      Launched(n) && !n.filterFailed && StartLines(n.ctl) == Less(StartLines(Exec(actions).ctl), LinesRun(more))
    decreases |more|
  {
    hide Next, Good, Launched, StartLines;
    if more == [] {
      assert actions + more == actions;
    } else {
      var k := |more| - 1;
      LaunchGoesOn(actions, more[..k]);
      TakeOfConcat(actions, more, k);
      GoodHolds(actions + more[..k]);
      if more[k].Control? {
        LaunchLine(Exec(actions + more[..k]));
      } else {
        ThreadsLeaveLaunch(Exec(actions + more[..k]), more[k]);
      }
    }
  }

  /** A start on an inactive monitor whose pcap calls succeed takes thirteen lines of its caller, whatever the
      threads do in between, and then has one capture and one monitor thread running on an open handle. */
  lemma StartComesUp(actions: seq<Action>, more: seq<Action>)
    requires !Exec(actions).filterFailed && Exec(actions).ctl == Idle && !Exec(actions).active
    requires forall i :: 0 <= i < |more| ==> Succeeds(more[i])
    ensures var s := Exec(actions + [Start] + more);
      && (s.ctl == Idle <==> LinesRun(more) >= 13)
      && (s.ctl == Idle ==> s.active && Up(s))
  {
    hide Exec, Up, Good;
    assert Exec(actions + [Start]) == Exec(actions).(ctl := ClearRunning(InStart)) by {
      ExecOne(actions, Start);
    }
    LaunchGoesOn(actions + [Start], more);
    if Exec(actions + [Start] + more).ctl == Idle {
      BetweenCalls(actions + [Start] + more);
    }
  }

  lemma ExecOne(actions: seq<Action>, a: Action)
    ensures Exec(actions + [a]) == Next(Exec(actions), a)
  {
    assert (actions + [a])[..|actions|] == actions;
  }

  // ---- Stopping comes down ----

  /** Lines of stop() still to be executed once it has told both threads to end. */
  function StopLines(ctl: Controller): nat {
    match ctl
    case BreakLoop(c) => if c == InStop then 7 else 0
    case JoinCapture(c) => if c == InStop then 6 else 0
    case CloseHandle(c) => if c == InStop then 5 else 0
    case NullHandle(c) => if c == InStop then 4 else 0
    case JoinMonitor => 3
    case ClearActive => 2
    case ClearStopRequest => 1
    case _ => 0
  }

  function MonitorWork(s: State): nat {
    if s.monitorThread.Some? && s.monitorThread.value in s.monitors
    then MonitorRank(s.monitors[s.monitorThread.value]) else 0
  }

  function CaptureWork(s: State): nat {
    if s.captureThread.Some? && s.captureThread.value in s.captures
    then CaptureRank(s.captures[s.captureThread.value]) else 0
  }

  /** What the caller and the two threads have left to do. */
  function Work(s: State): nat {
    StopLines(s.ctl) + CaptureWork(s) + MonitorWork(s)
  }

  /** The step that is due: the thread waited for, or else the caller. */
  function Due(s: State): Action {
    if s.ctl == JoinCapture(InStop) && s.captureThread.Some? && s.captureThread.value in s.captures
    then CaptureStep(s.captureThread.value)
    else if s.ctl == JoinMonitor && s.monitorThread.Some? && s.monitorThread.value in s.monitors
    then Monitor(s.monitorThread.value, false)
    else Control(true)
  }

  /** The caller waits for a thread that has not ended. */
  predicate Waiting(s: State) {
    || (s.ctl == JoinCapture(InStop) && s.captureThread.Some? && s.captureThread.value in s.captures)
    || (s.ctl == JoinMonitor && s.monitorThread.Some? && s.monitorThread.value in s.monitors)
  }

  /** A line of the caller brings the return nearer. */
  ghost predicate LineDone(s: State, n: State) {
    && StopLines(n.ctl) < StopLines(s.ctl)
    && n.filterFailed == s.filterFailed
    && (StopLines(n.ctl) > 0 || (n.ctl == Idle && !n.active))
  }

  /** It leaves the threads alone; at most it lets go of one that has ended. */
  ghost predicate ThreadsKept(s: State, n: State) {
    && n.captures == s.captures && n.monitors == s.monitors
    && (n.captureThread == s.captureThread || (CaptureWork(s) == 0 && n.captureThread == None))
    && (n.monitorThread == s.monitorThread || (MonitorWork(s) == 0 && n.monitorThread == None))
  }

  lemma BreakLine(s: State)
    requires s.ctl == BreakLoop(InStop)
    ensures var n := TerminateStep(s);
      n == s.(fault := n.fault, ctl := JoinCapture(InStop))
  {
    hide HandleUsable;
  }

  lemma JoinCaptureLine(s: State)
    requires s.ctl == JoinCapture(InStop) && !Waiting(s)
    ensures TerminateStep(s) == s.(captureThread := None, ctl := CloseHandle(InStop)) && CaptureWork(s) == 0
  {
  }

  lemma CloseLine(s: State)
    requires s.ctl == CloseHandle(InStop)
    ensures var n := TerminateStep(s);
      n == s.(fault := n.fault, openHandles := n.openHandles, ctl := n.ctl)
      && (n.ctl == NullHandle(InStop) || n.ctl == JoinMonitor)
  {
    hide HandleUsable;
  }

  lemma NullLine(s: State)
    requires s.ctl == NullHandle(InStop)
    ensures TerminateStep(s) == s.(handle := None, ctl := JoinMonitor)
  {
  }

  lemma TerminateLine(s: State)
    requires InTerminate(s.ctl) && s.ctl.from == InStop && !s.ctl.ClearRunning? && !Waiting(s)
    ensures LineDone(s, TerminateStep(s)) && ThreadsKept(s, TerminateStep(s))
  {
    hide TerminateStep, CaptureWork, MonitorWork, Waiting;
    match s.ctl
    case BreakLoop(_) => BreakLine(s);
    case JoinCapture(_) => JoinCaptureLine(s);
    case CloseHandle(_) => CloseLine(s);
    case NullHandle(_) => NullLine(s);
  }

  lemma JoinMonitorLine(s: State)
    requires s.ctl == JoinMonitor && !Waiting(s)
    ensures StopStep(s) == s.(monitorThread := None, ctl := ClearActive) && MonitorWork(s) == 0
  {
  }

  lemma LastLines(s: State)
    requires s.ctl == ClearActive || s.ctl == ClearStopRequest
    ensures s.ctl == ClearActive ==> StopStep(s) == s.(active := false, ctl := ClearStopRequest)
    ensures s.ctl == ClearStopRequest ==> StopStep(s) == s.(request := false, ctl := Idle)
  {
  }

  lemma ReturnLine(s: State)
    requires InStopping(s.ctl) && s.ctl != RequestStop && (s.ctl == ClearStopRequest ==> !s.active) && !Waiting(s)
    ensures LineDone(s, StopStep(s)) && ThreadsKept(s, StopStep(s))
  {
    hide StopStep, CaptureWork, MonitorWork, Waiting;
    if s.ctl == JoinMonitor {
      JoinMonitorLine(s);
    } else {
      LastLines(s);
    }
  }

  lemma KeptThreadsWork(s: State, n: State)
    requires ThreadsKept(s, n)
    ensures CaptureWork(n) == CaptureWork(s) && MonitorWork(n) == MonitorWork(s)
  {
  }

  lemma WaitingStays(s: State, ok: bool)
    requires Waiting(s)
    ensures Next(s, Control(ok)) == s
  {
  }

  lemma DueUnlessWaiting(s: State)
    ensures Due(s).Control? <==> !Waiting(s)
  {
  }

  /** The caller's lines go on to the return. */
  lemma StopLine(s: State, ok: bool)
    requires StopLines(s.ctl) > 0 && (s.ctl == ClearStopRequest ==> !s.active)
    ensures var n := Next(s, Control(ok));
      && (if Waiting(s) then n == s else LineDone(s, n) && Work(n) < Work(s) && n != s)
      && (Due(s).Control? ==> !Waiting(s))
  {
    hide StartStep, TerminateStep, StopStep, CaptureWork, MonitorWork, Due, Waiting, ThreadsKept;
    var n := Next(s, Control(ok));
    DueUnlessWaiting(s);
    if Waiting(s) {
      WaitingStays(s, ok);
    } else {
      if InTerminate(s.ctl) {
        TerminateLine(s);
      } else {
        ReturnLine(s);
      }
      KeptThreadsWork(s, n);
    }
  }

  lemma StopMonitorStep(s: State, id: nat, data: bool)
    requires EndingMonitor(s) && id in s.monitors
    ensures var n := MonitorStep(s, id, data);
      && n == s.(active := n.active, request := n.request, monitors := n.monitors)
      && MonitorWork(n) < MonitorWork(s)
  {
    MonitorFrame(s, id, data);
    assert id == s.monitorThread.value;
  }

  lemma StopCaptureStep(s: State, id: nat)
    requires EndingCapture(s) && id in s.captures
    ensures var n := CaptureThreadStep(s, id);
      && n == s.(fault := n.fault, captures := n.captures)
      && CaptureWork(n) < CaptureWork(s)
  {
    assert id == s.captureThread.value;
  }

  lemma StopThreadStep(s: State, a: Action)
    requires Good(s) && StopLines(s.ctl) > 0 && (a.Monitor? || a.CaptureStep?)
    ensures var n := Next(s, a);
      (n == s || Work(n) < Work(s)) && n.filterFailed == s.filterFailed && n.ctl == s.ctl
    ensures a == Due(s) ==> Next(s, a) != s
  {
    hide MonitorStep, CaptureThreadStep, MonitorWork, CaptureWork;
    match a
    case Monitor(id, data) =>
      if id in s.monitors {
        assert EndingMonitor(s);
        StopMonitorStep(s, id, data);
        SameCapture(s, MonitorStep(s, id, data));
      }
    case CaptureStep(id) =>
      if id in s.captures {
        assert EndingCapture(s);
        StopCaptureStep(s, id);
        SameMonitor(s, CaptureThreadStep(s, id));
      }
  }

  lemma SameCapture(s: State, n: State)
    requires n.captureThread == s.captureThread && n.captures == s.captures
    ensures CaptureWork(n) == CaptureWork(s)
  {
  }

  lemma SameMonitor(s: State, n: State)
    requires n.monitorThread == s.monitorThread && n.monitors == s.monitors
    ensures MonitorWork(n) == MonitorWork(s)
  {
  }

  /** Once stop() has told both threads to end, every step that changes anything brings the end nearer, some
      step always does, and the call ends with the monitor down. */
  lemma StopGoesOn(actions: seq<Action>, a: Action)
    requires !Exec(actions).filterFailed && StopLines(Exec(actions).ctl) > 0
    ensures var s, n := Exec(actions), Exec(actions + [a]);
      && !n.filterFailed
      && (n == s || Work(n) < Work(s))
      && (a == Due(s) ==> n != s)
      && (StopLines(n.ctl) > 0 || (n.ctl == Idle && !n.active && Down(n)))
  {
    hide Exec, Down, Due, StopLines, CaptureWork, MonitorWork, Next;
    var s := Exec(actions);
    GoodHolds(actions);
    ExecOne(actions, a);
    DueIsNoCall(s);
    if a.Control? {
      ReturnsInactive(s);
      StopLine(s, a.ok);
      DueSucceeds(s);
    } else if a.Monitor? || a.CaptureStep? {
      StopThreadStep(s, a);
    } else {
      CallIsIgnored(s, a);
    }
    BusyIsNotIdle(s);
    if Exec(actions + [a]).ctl == Idle {
      BetweenCalls(actions + [a]);
    }
  }

  lemma ReturnsInactive(s: State)
    requires Good(s)
    ensures s.ctl == ClearStopRequest ==> !s.active
  {
  }

  lemma BusyIsNotIdle(s: State)
    requires StopLines(s.ctl) > 0
    ensures s.ctl != Idle
  {
  }

  lemma CallIsIgnored(s: State, a: Action)
    requires StopLines(s.ctl) > 0 && (a.Start? || a.Stop?)
    ensures Next(s, a) == s
  {
  }

  lemma DueIsNoCall(s: State)
    ensures !Due(s).Start? && !Due(s).Stop?
  {
  }

  lemma DueSucceeds(s: State)
    ensures Due(s).Control? ==> Due(s) == Control(true)
  {
  }

  lemma {:induction false} StopFinishes(actions: seq<Action>) returns (more: seq<Action>)
    requires !Exec(actions).filterFailed && StopLines(Exec(actions).ctl) > 0
    ensures |more| <= Work(Exec(actions))
    ensures var n := Exec(actions + more); n.ctl == Idle && !n.active && Down(n)
    ensures forall i :: 0 <= i < |more| ==> !more[i].Start? && !more[i].Stop?
    decreases Work(Exec(actions))
  {
    hide Exec, Down, Work, Due, StopLines;
    var a := Due(Exec(actions));
    StopGoesOn(actions, a);
    DueIsNoCall(Exec(actions));
    if StopLines(Exec(actions + [a]).ctl) > 0 {
      var rest := StopFinishes(actions + [a]);
      more := [a] + rest;
      assert actions + more == actions + [a] + rest;
    } else {
      more := [a];
      WorkIsPositive(Exec(actions));
    }
  }

  lemma WorkIsPositive(s: State)
    requires StopLines(s.ctl) > 0
    ensures Work(s) > 0
  {
  }

  /** From every state in which the monitor is up, a stop can run to its end, and leaves both threads joined and
      the handle null; it takes no more than two lines and 15 steps. */
  lemma StopComesDown(actions: seq<Action>) returns (more: seq<Action>)
    requires !Exec(actions).filterFailed && Exec(actions).ctl == Idle && Exec(actions).active
    ensures var n := Exec(actions + [Stop] + more); n.ctl == Idle && !n.active && Down(n)
    ensures |more| <= 17 && forall i :: 0 <= i < |more| ==> !more[i].Start? && !more[i].Stop?
  {
    hide Exec, Down;
    var told := actions + [Stop] + [Control(true)] + [Control(true)];
    ExecOne(actions, Stop);
    ExecOne(actions + [Stop], Control(true));
    ExecOne(actions + [Stop] + [Control(true)], Control(true));
    var rest := StopFinishes(told);
    more := [Control(true), Control(true)] + rest;
    assert actions + [Stop] + more == told + rest;
  }

  // ---- The failed filter ----

  /** Step k of the run is the first filter installation to fail. */
  ghost predicate FailsAt(actions: seq<Action>, k: nat)
    requires k < |actions|
  {
    var s := Exec(actions[..k]);
    !s.filterFailed && s.ctl == InstallFilter && actions[k] == Control(false)
  }

  /** Somewhere start() is called, and its caller executes two lines: it gets past pcap_breakloop. */
  ghost predicate StartThenTwoLines(more: seq<Action>) {
    exists i, j, k :: 0 <= i < j < k < |more| && more[i].Start? && more[j].Control? && more[k].Control?
  }

  /** What a failed installation leaves: no threads, and a handle that is closed but not null. */
  predicate Wrecked(s: State) {
    && s.ctl == Idle && !s.active && !s.fault && s.captures == map[] && s.monitors == map[]
    && s.captureThread == None && s.handle.Some? && s.openHandles == {}
  }

  /** How far a later start() has come: not called, called, past its first line, past its second. */
  function Progress(more: seq<Action>): (p: nat)
    ensures p <= 3
  {
    if more == [] then 0
    else
      var p, a := Progress(more[..|more| - 1]), more[|more| - 1];
      if (p == 0 && a.Start?) || (0 < p < 3 && a.Control?) then p + 1 else p
  }

  predicate AfterProgress(w: State, p: nat, s: State) {
    match p
    case 0 => s == w
    case 1 => s == w.(ctl := ClearRunning(InStart))
    case 2 => s == w.(running := false, ctl := BreakLoop(InStart))
    case _ => s.fault
  }

  lemma FaultStays(s: State, a: Action)
    requires s.fault
    ensures Next(s, a).fault
  {
    hide TerminateStep, StartStep, StopStep, MonitorStep, CaptureThreadStep;
  }

  lemma ProgressStep(w: State, p: nat, s: State, a: Action)
    requires Wrecked(w) && p <= 3 && AfterProgress(w, p, s)
    ensures AfterProgress(w, if (p == 0 && a.Start?) || (0 < p < 3 && a.Control?) then p + 1 else p, Next(s, a))
  {
    if p == 3 {
      FaultStays(s, a);
    }
  }

  lemma {:induction false} ProgressReached(w: State, actions: seq<Action>, more: seq<Action>)
    requires Wrecked(w) && Exec(actions) == w
    ensures AfterProgress(w, Progress(more), Exec(actions + more))
    decreases |more|
  {
    hide Next, AfterProgress, Wrecked;
    if more == [] {
      assert actions + more == actions;
      assert AfterProgress(w, 0, w) by {
        NoProgressYet(w);
      }
    } else {
      var k := |more| - 1;
      ProgressReached(w, actions, more[..k]);
      TakeOfConcat(actions, more, k);
      ProgressStep(w, Progress(more[..k]), Exec(actions + more[..k]), more[k]);
    }
  }

  lemma NoProgressYet(w: State)
    ensures AfterProgress(w, 0, w)
  {
  }

  /** Progress in terms of where the actions stand. */
  lemma {:induction false} ProgressMeans(more: seq<Action>)
    ensures Progress(more) >= 1 <==> exists i :: 0 <= i < |more| && more[i].Start?
    ensures Progress(more) >= 2 <==> exists i, j :: 0 <= i < j < |more| && more[i].Start? && more[j].Control?
    ensures Progress(more) == 3 <==> StartThenTwoLines(more)
    decreases |more|
  {
    if more != [] {
      var k := |more| - 1;
      ProgressMeans(more[..k]);
      assert forall i :: 0 <= i < k ==> more[..k][i] == more[i];
    }
  }

  lemma FailureWrecks(actions: seq<Action>, k: nat)
    requires k < |actions| && FailsAt(actions, k)
    ensures Wrecked(Exec(actions[..k + 1]))
  {
    hide Exec;
    GoodHolds(actions[..k]);
    ExecStep(actions, k);
  }

  lemma ExecStep(actions: seq<Action>, k: nat)
    requires k < |actions|
    ensures Exec(actions[..k + 1]) == Next(Exec(actions[..k]), actions[k])
  {
    assert actions[..k + 1][..k] == actions[..k];
  }

  /** A run that continues after a failed installation faults if and only if start() is called again and reaches
      pcap_breakloop; if start() is not called at all, nothing changes any more. */
  lemma FaultAfterFilterFailure(actions: seq<Action>, k: nat)
    requires k < |actions| && FailsAt(actions, k)
    ensures var more := actions[k + 1..];
      && (Exec(actions).fault <==> StartThenTwoLines(more))
      && ((forall i :: 0 <= i < |more| ==> !more[i].Start?) ==> Exec(actions) == Exec(actions[..k + 1]))
  {
    hide Exec, Progress, StartThenTwoLines;
    var more, w := actions[k + 1..], Exec(actions[..k + 1]);
    FailureWrecks(actions, k);
    ProgressReached(w, actions[..k + 1], more);
    ProgressMeans(more);
    assert actions[..k + 1] + more == actions;
  }

  lemma {:induction false} FailureHappened(actions: seq<Action>) returns (k: nat)
    requires Exec(actions).filterFailed
    ensures k < |actions| && FailsAt(actions, k)
    decreases |actions|
  {
    var m := |actions| - 1;
    if Exec(actions[..m]).filterFailed {
      k := FailureHappened(actions[..m]);
      assert actions[..m][..k] == actions[..k];
    } else {
      k := m;
      OnlyInstallingFails(Exec(actions[..m]), actions[m]);
    }
  }

  lemma OnlyInstallingFails(s: State, a: Action)
    requires !s.filterFailed && Next(s, a).filterFailed
    ensures s.ctl == InstallFilter && a == Control(false)
  {
    hide TerminateStep, StartStep, StopStep, MonitorStep, CaptureThreadStep;
  }

  /** Of all runs, those that end in a fault are exactly those in which a filter installation failed and
      start(), called again afterwards, reached pcap_breakloop. */
  lemma FaultsExactly(actions: seq<Action>)
    ensures Exec(actions).fault
            <==> exists k :: 0 <= k < |actions| && FailsAt(actions, k) && StartThenTwoLines(actions[k + 1..])
  {
    hide Exec, FailsAt, StartThenTwoLines;
    if Exec(actions).fault {
      if !Exec(actions).filterFailed {
        LifecycleIsSafe(actions);
      }
      var k := FailureHappened(actions);
      FaultAfterFilterFailure(actions, k);
    }
    forall k | 0 <= k < |actions| && FailsAt(actions, k) && StartThenTwoLines(actions[k + 1..])
      ensures Exec(actions).fault
    {
      FaultAfterFilterFailure(actions, k);
    }
  }
}
