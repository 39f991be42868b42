/** The life of the RS485 poll thread: which sequences of API calls start it, keep it and
    end it. Each call is one step; what the device does is a parameter of the call. */
module PollLifecycle {
  import opened Bytes
  import opened Histories
  import opened PollThreads

  datatype Probe =
    | Rejected                          // no adapter, or a baud rate gear that does not exist
    | NoContext                         // libmodbus gives no context
    | PortFailed                        // the port does not open
    | Tried(answers: seq<bool>)         // the port opened; which slave ids answered, in order

  datatype Call =
    | Connect(slaveId: nat, outcome: Probe)
    | Disconnect
    | OpenTactile(accepted: bool)
    | CloseTactile(accepted: bool)
    | SetJointsCallback(present: bool)
    | SetHandStateCallback(present: bool)
    | SetTactileDataCallback(present: bool)

  datatype Link = Link(hasContext: bool, connected: bool, slaveId: nat)

  datatype Tactile = Tactile(open: bool, polled: bool)

  datatype State = State(link: Link, thread: Thread, listeners: Kinds, tactile: Tactile)

  const DEFAULT_SLAVE: nat := 0x31
  const SECOND_SLAVE: nat := 0x32

  const INITIAL: State :=
    State(Link(false, false, DEFAULT_SLAVE), Thread(false, false), Kinds(false, false, false), Tactile(false, false))

  /** The ids a connection attempt tries: two when none is given. */
  function Candidates(slaveId: nat): seq<nat> {
    if slaveId == 0 then [DEFAULT_SLAVE, SECOND_SLAVE] else [slaveId]
  }

  /** The first candidate that answers. */
  function FirstAnswer(ids: seq<nat>, answers: seq<bool>): (i: nat)
    ensures i <= |ids|
    ensures i < |ids| ==> i < |answers| && answers[i]
    ensures forall k :: 0 <= k < i && k < |answers| ==> !answers[k]
  {
    if ids == [] then 0
    else if answers == [] then |ids|
    else if answers[0] then 0
    else 1 + FirstAnswer(ids[1..], answers[1..])
  }

  class RS485Comm {
    var hasContext: bool
    var connected: bool
    var slaveId: nat
    var pollThread: bool          // poll_thread_.joinable()
    var pollStop: bool
    var jointsCb: bool
    var handStateCb: bool
    var tactileCb: bool
    var tactileOpen: bool
    var tactilePollEnabled: bool

    function View(): State
      reads this
    {
      State(Link(hasContext, connected, slaveId), Thread(pollThread, pollStop),
            Kinds(jointsCb, handStateCb, tactileCb), Tactile(tactileOpen, tactilePollEnabled))
    }

    /** The poll thread exists, and goes on, iff the device is connected and somebody listens;
        tactile data is polled iff the sensor is open and has a listener. */
    predicate Valid()
      reads this
    {
      && (pollThread <==> connected && HasCallbacks())
      && (pollThread ==> !pollStop)
      && (tactilePollEnabled <==> tactileOpen && tactileCb)
      && (tactileOpen ==> connected)
    }

    constructor ()
      ensures Valid() && View() == INITIAL
    {
      hasContext, connected, slaveId, pollThread, pollStop := false, false, DEFAULT_SLAVE, false, false;
      jointsCb, handStateCb, tactileCb, tactileOpen, tactilePollEnabled := false, false, false, false, false;
    }

    function HasCallbacks(): bool
      reads this
    {
      jointsCb || handStateCb || (tactilePollEnabled && tactileCb)
    }

    method EnsurePollStarted()
      modifies `pollThread, `pollStop
      ensures View() == old(View()).(thread := Started(old(View()).thread))
    {
      if !pollThread {
        pollStop := false;
        pollThread := true;
      }
    }

    method StopPoll()
      modifies `pollThread, `pollStop
      ensures View() == old(View()).(thread := STOPPED) && pollStop && !pollThread
    {
      pollStop := true;
      if pollThread {
        pollThread := false;
      }
    }

    method ProbeSlave(id: nat, answer: bool) returns (ok: bool)
      modifies this
      ensures ok == answer
      ensures View() == if answer then Found(old(View()), id) else old(View())
    {
      if answer {
        slaveId := id;
        connected := true;
        if HasCallbacks() {
          EnsurePollStarted();
        }
      }
      return answer;
    }

    method ConnectTo(id: nat, outcome: Probe) returns (rc: int)
      requires Valid()
      modifies this
      ensures Valid()
      ensures View() == Step(old(View()), Connect(id, outcome))
      ensures rc == 0 <==> Succeeds(Connect(id, outcome))
    {
      if outcome.Rejected? {
        return -1;
      }
      if outcome.NoContext? {
        hasContext := false;
        return -1;
      }
      hasContext := true;
      if outcome.PortFailed? {
        hasContext := false;
        return -2;
      }
      var ok := TryCandidates(Candidates(id), outcome.answers);
      if ok {
        return 0;
      }
      hasContext := false;
      return -2;
    }

    method TryCandidates(ids: seq<nat>, answers: seq<bool>) returns (ok: bool)
      modifies this
      ensures var i := FirstAnswer(ids, answers);
              ok == (i < |ids|) && View() == if ok then Found(old(View()), ids[i]) else old(View())
    {
      hide Found, FirstAnswer;
      for i := 0 to |ids|
        invariant View() == old(View())
        invariant forall k :: 0 <= k < i && k < |answers| ==> !answers[k]
      {
        ok := ProbeSlave(ids[i], i < |answers| && answers[i]);
        if ok {
          return;
        }
      }
      return false;
    }

    method Disconnected()
      requires Valid()
      modifies this
      ensures Valid()
      ensures View() == Step(old(View()), Disconnect)
    {
      StopPoll();
      tactileOpen := false;
      tactilePollEnabled := false;
      hasContext := false;
      connected := false;
      slaveId := DEFAULT_SLAVE;
    }

    method OpenTactileSensor(accepted: bool) returns (ok: bool)
      requires Valid()
      modifies this
      ensures Valid()
      ensures View() == Step(old(View()), OpenTactile(accepted))
      ensures ok == CanWrite(old(View()), accepted)
    {
      if !connected || !hasContext || !accepted {
        return false;
      }
      tactileOpen := true;
      tactilePollEnabled := tactileCb;
      if tactilePollEnabled {
        EnsurePollStarted();
      }
      return true;
    }

    method CloseTactileSensor(accepted: bool) returns (ok: bool)
      requires Valid()
      modifies this
      ensures Valid()
      ensures View() == Step(old(View()), CloseTactile(accepted))
      ensures ok == CanWrite(old(View()), accepted)
    {
      ok := connected && hasContext && accepted;
      tactileOpen := false;
      tactilePollEnabled := false;
      if !jointsCb && !handStateCb && !tactilePollEnabled {
        StopPoll();
      }
    }

    method OnJoints(present: bool)
      requires Valid()
      modifies this
      ensures Valid()
      ensures View() == Step(old(View()), SetJointsCallback(present))
    {
      jointsCb := present;
      if present && connected {
        EnsurePollStarted();
      } else if !present && !HasCallbacks() {
        StopPoll();
      }
    }

    method OnHandState(present: bool)
      requires Valid()
      modifies this
      ensures Valid()
      ensures View() == Step(old(View()), SetHandStateCallback(present))
    {
      handStateCb := present;
      if present && connected {
        EnsurePollStarted();
      } else if !present && !HasCallbacks() {
        StopPoll();
      }
    }

    method OnTactileData(present: bool)
      requires Valid()
      modifies this
      ensures Valid()
      ensures View() == Step(old(View()), SetTactileDataCallback(present))
    {
      tactileCb := present;
      tactilePollEnabled := tactileOpen && present;
      var shouldStop := !jointsCb && !handStateCb && !tactilePollEnabled;
      if tactilePollEnabled && connected {
        EnsurePollStarted();
      } else if shouldStop {
        StopPoll();
      }
    }
  }

  // ---- The calls as steps ----

  predicate Wanted(s: State) {
    s.listeners.joints || s.listeners.handState || (s.tactile.polled && s.listeners.tactile)
  }

  function Found(s: State, id: nat): State {
    var link := Link(s.link.hasContext, true, id);
    State(link, if Wanted(s) then Started(s.thread) else s.thread, s.listeners, s.tactile)
  }

  predicate CanWrite(s: State, accepted: bool) {
    s.link.connected && s.link.hasContext && accepted
  }

  /** A connection attempt that ends with a slave that answered. */
  predicate Succeeds(c: Call) {
    c.Connect? && c.outcome.Tried? &&
    FirstAnswer(Candidates(c.slaveId), c.outcome.answers) < |Candidates(c.slaveId)|
  }

  /** With a joints or hand-state callback set, or cleared. */
  function AfterCallback(s: State, listeners: Kinds, present: bool): State {
    var next := s.(listeners := listeners);
    if present && s.link.connected then next.(thread := Started(s.thread))
    else if !present && !Wanted(next) then next.(thread := STOPPED)
    else next
  }

  function Step(s: State, c: Call): State {
    match c
    case Connect(id, outcome) =>
      if outcome.Rejected? then s
      else if Succeeds(c) then
        Found(s.(link := Link(true, s.link.connected, s.link.slaveId)),
              Candidates(id)[FirstAnswer(Candidates(id), outcome.answers)])
      else s.(link := Link(false, s.link.connected, s.link.slaveId))
    case Disconnect => State(Link(false, false, DEFAULT_SLAVE), STOPPED, s.listeners, Tactile(false, false))
    case OpenTactile(accepted) =>
      if !CanWrite(s, accepted) then s
      else
        State(s.link, if s.listeners.tactile then Started(s.thread) else s.thread, s.listeners,
              Tactile(true, s.listeners.tactile))
    case CloseTactile(_) =>
      State(s.link, if !s.listeners.joints && !s.listeners.handState then STOPPED else s.thread, s.listeners,
            Tactile(false, false))
    case SetJointsCallback(present) => AfterCallback(s, s.listeners.(joints := present), present)
    case SetHandStateCallback(present) => AfterCallback(s, s.listeners.(handState := present), present)
    case SetTactileDataCallback(present) =>
      var polled := s.tactile.open && present;
      var thread :=
        if polled && s.link.connected then Started(s.thread)
        else if !s.listeners.joints && !s.listeners.handState && !polled then STOPPED
        else s.thread;
      State(s.link, thread, s.listeners.(tactile := present), Tactile(s.tactile.open, polled))
  }

  /** The state after any sequence of calls. */
  function Exec(calls: seq<Call>): State {
    if calls == [] then INITIAL else Step(Exec(calls[..|calls| - 1]), calls[|calls| - 1])
  }

  // ---- What holds in every reachable state ----

  /** The invariant of the class, on states. */
  predicate Consistent(s: State) {
    && (s.thread.running <==> s.link.connected && Wanted(s))
    && (s.thread.running ==> !s.thread.stop)
    && (s.tactile.polled <==> s.tactile.open && s.listeners.tactile)
    && (s.tactile.open ==> s.link.connected)
  }

  lemma StepKeepsConsistent(s: State, c: Call)
    requires Consistent(s)
    ensures Consistent(Step(s, c))
  {
    hide Succeeds, FirstAnswer, Candidates;
  }

  /** After every sequence of calls the poll thread exists, and has not been told to stop,
      iff the device is connected and somebody listens; tactile data is polled iff the
      sensor is open and has a listener. */
  lemma {:induction false} ThreadIffConnectedAndWanted(calls: seq<Call>)
    ensures Consistent(Exec(calls))
  {
    if calls != [] {
      ThreadIffConnectedAndWanted(calls[..|calls| - 1]);
      StepKeepsConsistent(Exec(calls[..|calls| - 1]), calls[|calls| - 1]);
    }
  }

  // ---- Who is really connected ----

  ghost predicate SucceededSinceDisconnect(calls: seq<Call>) {
    exists i :: 0 <= i < |calls| && Succeeds(calls[i]) && forall j :: i < j < |calls| ==> calls[j] != Disconnect
  }

  predicate TouchesContext(c: Call) {
    c.Disconnect? || (c.Connect? && !c.outcome.Rejected?)
  }

  ghost predicate LastTouchSucceeded(calls: seq<Call>) {
    exists i :: 0 <= i < |calls| && Succeeds(calls[i]) && forall j :: i < j < |calls| ==> !TouchesContext(calls[j])
  }

  lemma SuccessIsTried(c: Call)
    ensures Succeeds(c) ==> c.Connect? && c.outcome.Tried?
  {
  }

  lemma ConnectionStep(s: State, c: Call)
    ensures Step(s, c).link.connected <==> Succeeds(c) || (c != Disconnect && s.link.connected)
    ensures Step(s, c).link.hasContext <==> Succeeds(c) || (!TouchesContext(c) && s.link.hasContext)
  {
    hide FirstAnswer, Candidates, Succeeds;
    SuccessIsTried(c);
  }

  /** `connected` remembers any success since the last Disconnect; the Modbus context
      remembers only how the last attempt ended. */
  lemma {:induction false} ConnectionHistory(calls: seq<Call>)
    ensures Exec(calls).link.connected <==> SucceededSinceDisconnect(calls)
    ensures Exec(calls).link.hasContext <==> LastTouchSucceeded(calls)
  {
    if calls != [] {
      var before, last := calls[..|calls| - 1], calls[|calls| - 1];
      hide Step, Succeeds, SucceededSinceDisconnect, LastTouchSucceeded;
      ConnectionHistory(before);
      assert calls == before + [last];
      ConnectionStep(Exec(before), last);
      ConnectedStep(before, last);
      ContextStep(before, last);
    }
  }

  lemma ConnectedStep(before: seq<Call>, last: Call)
    ensures SucceededSinceDisconnect(before + [last]) <==>
            Succeeds(last) || (last != Disconnect && SucceededSinceDisconnect(before))
  {
    var calls := before + [last];
    if Succeeds(last) {
      assert Succeeds(calls[|before|]);
    } else if last != Disconnect && SucceededSinceDisconnect(before) {
      var i :| 0 <= i < |before| && Succeeds(before[i]) && forall j :: i < j < |before| ==> before[j] != Disconnect;
      assert Succeeds(calls[i]) && forall j :: i < j < |calls| ==> calls[j] != Disconnect;
    }
    if SucceededSinceDisconnect(calls) && !Succeeds(last) {
      var i :| 0 <= i < |calls| && Succeeds(calls[i]) && forall j :: i < j < |calls| ==> calls[j] != Disconnect;
      assert calls[|before|] == last;
      assert Succeeds(before[i]) && forall j :: i < j < |before| ==> before[j] == calls[j];
    }
  }

  lemma ContextStep(before: seq<Call>, last: Call)
    ensures LastTouchSucceeded(before + [last]) <==>
            Succeeds(last) || (!TouchesContext(last) && LastTouchSucceeded(before))
  {
    var calls := before + [last];
    if Succeeds(last) {
      assert Succeeds(calls[|before|]);
    } else if !TouchesContext(last) && LastTouchSucceeded(before) {
      var i :| 0 <= i < |before| && Succeeds(before[i]) && forall j :: i < j < |before| ==> !TouchesContext(before[j]);
      assert Succeeds(calls[i]) && forall j :: i < j < |calls| ==> !TouchesContext(calls[j]);
    }
    if LastTouchSucceeded(calls) && !Succeeds(last) {
      var i :| 0 <= i < |calls| && Succeeds(calls[i]) && forall j :: i < j < |calls| ==> !TouchesContext(calls[j]);
      assert calls[|before|] == last;
      assert Succeeds(before[i]) && forall j :: i < j < |before| ==> before[j] == calls[j];
    }
  }

  /** A device that reports itself connected has a Modbus context, except after a failed
      attempt to connect over a connection that still stood; then it stays that way, poll
      thread and all, until a Disconnect or an attempt that succeeds. */
  lemma ConnectedWithoutContextIff(calls: seq<Call>)
    ensures Exec(calls).link.hasContext ==> Exec(calls).link.connected
    ensures (Exec(calls).link.connected && !Exec(calls).link.hasContext) <==>
            (SucceededSinceDisconnect(calls) && !LastTouchSucceeded(calls))
  {
    ConnectionHistory(calls);
    if LastTouchSucceeded(calls) {
      var i :| 0 <= i < |calls| && Succeeds(calls[i]) && forall j :: i < j < |calls| ==> !TouchesContext(calls[j]);
      assert forall j :: i < j < |calls| ==> calls[j] != Disconnect;
    }
  }

  /** Such a state is reached by three calls, and keeps the thread alive. */
  lemma StrandedExample()
    ensures var s := Exec([SetJointsCallback(true), Connect(1, Tried([true])), Connect(2, PortFailed)]);
            s.link.connected && !s.link.hasContext && s.thread.running
  {
    var calls := [SetJointsCallback(true), Connect(1, Tried([true])), Connect(2, PortFailed)];
    assert calls[..2][..1][..0] == [];
    assert Exec(calls[..2][..1]) == Step(INITIAL, SetJointsCallback(true));
    assert Exec(calls[..2]) == Step(Exec(calls[..2][..1]), Connect(1, Tried([true])));
  }

  // ---- Who listens, and which slave answered ----

  function JointsMark(s: State, c: Call): Option<bool> {
    if c.SetJointsCallback? then Some(c.present) else None
  }

  function HandStateMark(s: State, c: Call): Option<bool> {
    if c.SetHandStateCallback? then Some(c.present) else None
  }

  function TactileMark(s: State, c: Call): Option<bool> {
    if c.SetTactileDataCallback? then Some(c.present) else None
  }

  /** Only a connected device with a context can be written to. */
  function OpenMark(s: State, c: Call): Option<bool> {
    if c.OpenTactile? && c.accepted && s.link.connected && s.link.hasContext then Some(true)
    else if c.CloseTactile? || c.Disconnect? then Some(false)
    else None
  }

  lemma ListenerStep(s: State, c: Call)
    ensures var next := Step(s, c);
            && next.listeners.joints == (if JointsMark(s, c).Some? then JointsMark(s, c).value else s.listeners.joints)
            && next.listeners.handState == (if HandStateMark(s, c).Some? then HandStateMark(s, c).value else s.listeners.handState)
            && next.listeners.tactile == (if TactileMark(s, c).Some? then TactileMark(s, c).value else s.listeners.tactile)
  {
    hide FirstAnswer, Candidates, Succeeds;
  }

  lemma OpenStep(s: State, c: Call)
    ensures Step(s, c).tactile.open == if OpenMark(s, c).Some? then OpenMark(s, c).value else s.tactile.open
  {
    hide FirstAnswer, Candidates, Succeeds;
  }

  /** A callback is there iff it was set last; the tactile sensor is open iff it was opened, when
      the device could be written to, and neither closed nor disconnected since. */
  lemma {:induction false} ListenerHistory(calls: seq<Call>)
    ensures Exec(calls).listeners.joints <==> MarkedSince(calls, Exec, JointsMark)
    ensures Exec(calls).listeners.handState <==> MarkedSince(calls, Exec, HandStateMark)
    ensures Exec(calls).listeners.tactile <==> MarkedSince(calls, Exec, TactileMark)
    ensures Exec(calls).tactile.open <==> MarkedSince(calls, Exec, OpenMark)
  {
    if calls != [] {
      var before, last := calls[..|calls| - 1], calls[|calls| - 1];
      assert calls == before + [last];
      hide Step, MarkedSince, JointsMark, HandStateMark, TactileMark, OpenMark;
      ListenerHistory(before);
      ListenerStep(Exec(before), last);
      OpenStep(Exec(before), last);
      MarkedOneMore(before, last, Exec, JointsMark);
      MarkedOneMore(before, last, Exec, HandStateMark);
      MarkedOneMore(before, last, Exec, TactileMark);
      MarkedOneMore(before, last, Exec, OpenMark);
    }
  }

  /** The slave a connection attempt ends with: the one that is asked for, or, if none is, 0x31 if
      it answers and else 0x32. */
  predicate Answers(c: Call, id: nat) {
    c.Connect? && c.outcome.Tried? &&
    var a := c.outcome.answers;
    if c.slaveId != 0 then id == c.slaveId && |a| >= 1 && a[0]
    else (id == 0x31 && |a| >= 1 && a[0]) || (id == 0x32 && |a| >= 2 && !a[0] && a[1])
  }

  lemma SucceedsIff(c: Call)
    ensures Succeeds(c) <==> exists id :: Answers(c, id)
  {
    if c.Connect? && c.outcome.Tried? {
      var ids, a := Candidates(c.slaveId), c.outcome.answers;
      FirstOfTwo(ids, a);
      assert Succeeds(c) ==> Answers(c, ids[FirstAnswer(ids, a)]);
    }
  }

  lemma FirstOfTwo(ids: seq<nat>, a: seq<bool>)
    requires 1 <= |ids| <= 2
    ensures FirstAnswer(ids, a) == if |a| >= 1 && a[0] then 0 else if |ids| == 2 && |a| >= 2 && a[1] then 1 else |ids|
  {
  }

  lemma SlaveStep(s: State, c: Call)
    ensures forall id: nat :: Answers(c, id) ==> Step(s, c).link.slaveId == id
    ensures c == Disconnect ==> Step(s, c).link.slaveId == 0x31
    ensures c != Disconnect && (forall id: nat :: !Answers(c, id)) ==> Step(s, c).link.slaveId == s.link.slaveId
  {
    SucceedsIff(c);
    if c.Connect? && c.outcome.Tried? {
      FirstOfTwo(Candidates(c.slaveId), c.outcome.answers);
    }
    hide FirstAnswer;
  }

  predicate NamesSlave(c: Call, id: nat) {
    Answers(c, id) || (c == Disconnect && id == 0x31)
  }

  ghost predicate NamesNone(c: Call) {
    forall id: nat :: !NamesSlave(c, id)
  }

  /** The last call that named a slave named this one, or none did and it is the standard one. */
  ghost predicate SlaveIs(calls: seq<Call>, id: nat) {
    || LastNamed(calls, id)
    || (id == 0x31 && forall j :: 0 <= j < |calls| ==> NamesNone(calls[j]))
  }

  ghost predicate LastNamed(calls: seq<Call>, id: nat) {
    exists i :: 0 <= i < |calls| && NamesSlave(calls[i], id) && forall j :: i < j < |calls| ==> NamesNone(calls[j])
  }

  lemma SlaveIsOneMore(calls: seq<Call>, c: Call, id: nat)
    requires NamesSlave(c, id) || (NamesNone(c) && SlaveIs(calls, id))
    ensures SlaveIs(calls + [c], id)
  {
    hide NamesSlave, NamesNone;
    var all := calls + [c];
    assert all[|calls|] == c && forall i :: 0 <= i < |calls| ==> all[i] == calls[i];
    if NamesSlave(c, id) {
      assert NamesSlave(all[|calls|], id);
    } else if LastNamed(calls, id) {
      var i :| 0 <= i < |calls| && NamesSlave(calls[i], id) && forall j :: i < j < |calls| ==> NamesNone(calls[j]);
      assert NamesSlave(all[i], id);
    }
  }

  lemma SlaveNamed(s: State, c: Call)
    ensures NamesSlave(c, Step(s, c).link.slaveId) || (NamesNone(c) && Step(s, c).link.slaveId == s.link.slaveId)
  {
    SlaveStep(s, c);
    hide Step, Answers;
    if !NamesNone(c) {
      var id: nat :| NamesSlave(c, id);
    } else {
      assert c != Disconnect by {
        assert !NamesSlave(c, 0x31);
      }
      forall id: nat
        ensures !Answers(c, id)
      {
        assert !NamesSlave(c, id);
      }
    }
  }

  /** The slave id is that of the last attempt that succeeded, or the standard one at first and
      after a Disconnect. */
  lemma {:induction false} SlaveHistory(calls: seq<Call>)
    ensures SlaveIs(calls, Exec(calls).link.slaveId)
  {
    if calls != [] {
      var before, last := calls[..|calls| - 1], calls[|calls| - 1];
      assert calls == before + [last];
      hide Step, NamesSlave, NamesNone, SlaveIs;
      SlaveHistory(before);
      SlaveNamed(Exec(before), last);
      SlaveIsOneMore(before, last, Exec(calls).link.slaveId);
    }
  }
}
