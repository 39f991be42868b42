/** The life of the CAN-FD poll thread. It differs from the one over RS485: what is polled is
    remembered in flags that callbacks set only while connected, and a handshake that fails
    takes the connection away and nothing else. */
module CanfdLifecycle {
  import opened Bytes
  import opened Histories
  import opened PollThreads

  datatype Attempt =
    | Refused             // no driver, an id past 0x3F, or a baud rate gear that does not exist
    | NotOpened           // the adapter, closed first, does not open again
    | NotEstablished      // it opened, but no device took the connection
    | Established

  datatype Opening =
    | NotTried            // no driver, or a baud rate gear that does not exist
    | Failed
    | Opened

  datatype Call =
    | Connect(attempt: Attempt)
    | Listen(opening: Opening)            // PrepareBaudrateListener, which connects to nobody
    | Disconnect
    | OpenTactile(accepted: bool)
    | CloseTactile(accepted: bool)
    | SetJointsCallback(present: bool)
    | SetHandStateCallback(present: bool)
    | SetTactileDataCallback(present: bool)

  datatype Link = Link(portOpen: bool, connected: bool)

  datatype State = State(link: Link, thread: Thread, listeners: Kinds, polled: Kinds)

  const INITIAL: State :=
    State(Link(false, false), Thread(false, false), Kinds(false, false, false), Kinds(false, false, false))

  class CANFDComm {
    var portOpen: bool            // whether the driver has its port open
    var connected: bool
    var pollThread: bool          // poll_thread_.joinable()
    var pollStop: bool
    var jointsCb: bool
    var handStateCb: bool
    var tactileCb: bool
    var jointsPollEnabled: bool
    var handStatePollEnabled: bool
    var tactilePollEnabled: bool

    function View(): State
      reads this
    {
      State(Link(portOpen, connected), Thread(pollThread, pollStop), Kinds(jointsCb, handStateCb, tactileCb),
            Kinds(jointsPollEnabled, handStatePollEnabled, tactilePollEnabled))
    }

    /** What is to be polled keeps a thread alive, and it has not been told to stop; while
        connected, joints and hand states are polled iff somebody listens. */
    predicate Valid()
      reads this
    {
      Consistent(View())
    }

    constructor ()
      ensures Valid() && View() == INITIAL
    {
      portOpen, connected, pollThread, pollStop := false, false, false, false;
      jointsCb, handStateCb, tactileCb := false, false, false;
      jointsPollEnabled, handStatePollEnabled, tactilePollEnabled := false, false, false;
    }

    method EnsurePollStarted()
      modifies `pollThread, `pollStop
      ensures View() == old(View()).(thread := Started(old(View()).thread))
    {
      if !pollThread {
        pollStop := false;
        pollThread := true;
      }
    }

    method StopPoll()
      modifies `pollThread, `pollStop
      ensures View() == old(View()).(thread := STOPPED) && pollStop && !pollThread
    {
      pollStop := true;
      if pollThread {
        pollThread := false;
      }
    }

    method ConnectTo(attempt: Attempt) returns (rc: int)
      requires Valid()
      modifies this
      ensures Valid() && View() == Step(old(View()), Connect(attempt))
      ensures rc == 0 <==> attempt.Established?
    {
      StepKeepsConsistent(View(), Connect(attempt));
      if attempt.Refused? {
        return -1;
      }
      portOpen := !attempt.NotOpened?;
      if attempt.NotOpened? {
        return -2;
      }
      connected := true;
      if attempt.NotEstablished? {
        portOpen := false;
        connected := false;
        return -3;
      }
      jointsPollEnabled := jointsCb;
      handStatePollEnabled := handStateCb;
      if jointsPollEnabled || handStatePollEnabled || tactilePollEnabled {
        EnsurePollStarted();
      }
      return 0;
    }

    method PrepareBaudrateListener(opening: Opening) returns (ok: bool)
      requires Valid()
      modifies this
      ensures Valid() && View() == Step(old(View()), Listen(opening))
      ensures ok == opening.Opened?
    {
      if opening.NotTried? {
        return false;
      }
      portOpen := opening.Opened?;
      return portOpen;
    }

    method Disconnected()
      requires Valid()
      modifies this
      ensures Valid() && View() == Step(old(View()), Disconnect)
    {
      StopPoll();
      jointsPollEnabled := false;
      handStatePollEnabled := false;
      tactilePollEnabled := false;
      connected := false;
      portOpen := false;
    }

    method OpenTactileSensor(accepted: bool) returns (ok: bool)
      requires Valid()
      modifies this
      ensures Valid() && View() == Step(old(View()), OpenTactile(accepted))
      ensures ok == (old(connected) && old(portOpen) && accepted)
    {
      StepKeepsConsistent(View(), OpenTactile(accepted));
      if !connected || !portOpen || !accepted {
        return false;
      }
      tactilePollEnabled := tactileCb;
      if tactilePollEnabled {
        EnsurePollStarted();
      }
      return true;
    }

    method CloseTactileSensor(accepted: bool) returns (ok: bool)
      requires Valid()
      modifies this
      ensures Valid() && View() == Step(old(View()), CloseTactile(accepted))
      ensures ok == (old(connected) && old(portOpen) && accepted)
    {
      StepKeepsConsistent(View(), CloseTactile(accepted));
      ok := connected && portOpen && accepted;
      tactilePollEnabled := false;
      if !jointsPollEnabled && !handStatePollEnabled && !tactilePollEnabled {
        StopPoll();
      }
    }

    method OnJoints(present: bool)
      requires Valid()
      modifies this
      ensures Valid() && View() == Step(old(View()), SetJointsCallback(present))
    {
      StepKeepsConsistent(View(), SetJointsCallback(present));
      jointsCb := present;
      if connected {
        jointsPollEnabled := present;
      }
      if jointsPollEnabled && connected {
        EnsurePollStarted();
      } else if !jointsPollEnabled && !handStatePollEnabled && !tactilePollEnabled {
        StopPoll();
      }
    }

    method OnHandState(present: bool)
      requires Valid()
      modifies this
      ensures Valid() && View() == Step(old(View()), SetHandStateCallback(present))
    {
      StepKeepsConsistent(View(), SetHandStateCallback(present));
      handStateCb := present;
      if connected {
        handStatePollEnabled := present;
      }
      if handStatePollEnabled && connected {
        EnsurePollStarted();
      } else if !jointsPollEnabled && !handStatePollEnabled && !tactilePollEnabled {
        StopPoll();
      }
    }

    method OnTactileData(present: bool)
      requires Valid()
      modifies this
      ensures Valid() && View() == Step(old(View()), SetTactileDataCallback(present))
    {
      StepKeepsConsistent(View(), SetTactileDataCallback(present));
      tactileCb := present;
      if connected {
        tactilePollEnabled := present;
      }
      if tactilePollEnabled && connected {
        EnsurePollStarted();
      } else if !jointsPollEnabled && !handStatePollEnabled && !tactilePollEnabled {
        StopPoll();
      }
    }
  }

  // ---- The calls as steps ----

  /** The thread after a callback is set: started for what it enables, or ended if nothing at
      all is to be polled. */
  function Settled(connected: bool, t: Thread, polled: Kinds, enabled: bool): Thread {
    if enabled && connected then Started(t) else if !Any(polled) then STOPPED else t
  }

  function Step(s: State, c: Call): State {
    match c
    case Connect(Refused) => s
    case Connect(NotOpened) => s.(link := Link(false, s.link.connected))
    case Connect(NotEstablished) => s.(link := Link(false, false))
    case Connect(Established) =>
      var polled := Kinds(s.listeners.joints, s.listeners.handState, s.polled.tactile);
      State(Link(true, true), if Any(polled) then Started(s.thread) else s.thread, s.listeners, polled)
    case Listen(opening) => if opening.NotTried? then s else s.(link := Link(opening.Opened?, s.link.connected))
    case Disconnect => State(Link(false, false), STOPPED, s.listeners, Kinds(false, false, false))
    case OpenTactile(accepted) =>
      if !s.link.connected || !s.link.portOpen || !accepted then s
      else
        var polled := s.polled.(tactile := s.listeners.tactile);
        s.(thread := if polled.tactile then Started(s.thread) else s.thread, polled := polled)
    case CloseTactile(_) =>
      var polled := s.polled.(tactile := false);
      s.(thread := if Any(polled) then s.thread else STOPPED, polled := polled)
    case SetJointsCallback(present) =>
      var polled := if s.link.connected then s.polled.(joints := present) else s.polled;
      State(s.link, Settled(s.link.connected, s.thread, polled, polled.joints),
            s.listeners.(joints := present), polled)
    case SetHandStateCallback(present) =>
      var polled := if s.link.connected then s.polled.(handState := present) else s.polled;
      State(s.link, Settled(s.link.connected, s.thread, polled, polled.handState),
            s.listeners.(handState := present), polled)
    case SetTactileDataCallback(present) =>
      var polled := if s.link.connected then s.polled.(tactile := present) else s.polled;
      State(s.link, Settled(s.link.connected, s.thread, polled, polled.tactile),
            s.listeners.(tactile := present), polled)
  }

  function RunFrom(s: State, calls: seq<Call>): State {
    if calls == [] then s else Step(RunFrom(s, calls[..|calls| - 1]), calls[|calls| - 1])
  }

  /** The state after any sequence of calls. */
  function Exec(calls: seq<Call>): State {
    RunFrom(INITIAL, calls)
  }

  lemma RunOneMore(s: State, calls: seq<Call>, c: Call)
    ensures RunFrom(s, calls + [c]) == Step(RunFrom(s, calls), c)
  {
    assert (calls + [c])[..|calls|] == calls;
  }

  lemma {:induction false} RunConcat(s: State, a: seq<Call>, b: seq<Call>)
    ensures RunFrom(s, a + b) == RunFrom(RunFrom(s, a), b)
  {
    hide Step;
    if b == [] {
      assert a + b == a;
    } else {
      var n := |b| - 1;
      var before := b[..n];
      assert b == before + [b[n]] && a + b == (a + before) + [b[n]];
      RunConcat(s, a, before);
      RunOneMore(s, a + before, b[n]);
    }
  }

  // ---- What holds in every reachable state ----

  /** The invariant of the class, on states. */
  predicate Consistent(s: State) {
    && (Any(s.polled) ==> s.thread.running)
    && (s.thread.running ==> !s.thread.stop)
    && (s.link.connected ==> s.polled.joints == s.listeners.joints && s.polled.handState == s.listeners.handState)
  }

  lemma StepKeepsConsistent(s: State, c: Call)
    requires Consistent(s)
    ensures Consistent(Step(s, c))
  {
  }

  lemma {:induction false} AlwaysConsistent(calls: seq<Call>)
    ensures Consistent(Exec(calls))
  {
    hide Step, Consistent;
    if calls == [] {
      StartsConsistent();
    } else {
      AlwaysConsistent(calls[..|calls| - 1]);
      StepKeepsConsistent(Exec(calls[..|calls| - 1]), calls[|calls| - 1]);
    }
  }

  lemma StartsConsistent()
    ensures Consistent(INITIAL)
  {
  }

  // ---- When the thread is there exactly while it is wanted ----

  /** As over RS485: the thread is there iff the device is connected and somebody listens. */
  predicate Sound(s: State) {
    s.thread.running <==> s.link.connected && (s.listeners.joints || s.listeners.handState || (s.polled.tactile && s.listeners.tactile))
  }

  predicate Drops(c: Call) {
    c == Connect(NotEstablished)
  }

  ghost predicate DropsAThread(calls: seq<Call>) {
    exists i :: 0 <= i < |calls| && Drops(calls[i]) && Exec(calls[..i]).thread.running
  }

  /** What is more, while no handshake has failed over a running thread. */
  predicate Undropped(s: State) {
    && Sound(s) && Consistent(s) && (s.thread.running ==> Any(s.polled))
    && (s.polled.tactile ==> s.listeners.tactile) && (Any(s.polled) ==> s.link.connected)
  }

  lemma StepKeepsUndropped(s: State, c: Call)
    requires Undropped(s) && !(Drops(c) && s.thread.running)
    ensures Undropped(Step(s, c))
  {
  }

  lemma {:induction false} UndroppedIsSound(calls: seq<Call>)
    requires !DropsAThread(calls)
    ensures Undropped(Exec(calls))
  {
    hide Step, Undropped, Drops;
    if calls == [] {
      StartsUndropped();
    } else {
      var before := calls[..|calls| - 1];
      if DropsAThread(before) {
        DropsStay(calls, |calls| - 1);
      }
      UndroppedIsSound(before);
      StepKeepsUndropped(Exec(before), calls[|calls| - 1]);
    }
  }

  lemma StartsUndropped()
    ensures Undropped(INITIAL)
  {
  }

  lemma DropsStay(calls: seq<Call>, k: nat)
    requires k <= |calls| && DropsAThread(calls[..k])
    ensures DropsAThread(calls)
  {
    hide Exec, Drops;
    var i :| 0 <= i < k && Drops(calls[..k][i]) && Exec(calls[..k][..i]).thread.running;
    assert calls[..k][..i] == calls[..i] && calls[..k][i] == calls[i];
  }

  /** After every call of a history the thread is there iff the device is connected and
      somebody listens, iff no handshake failed while there was a thread. */
  lemma SoundIffNoThreadIsDropped(calls: seq<Call>)
    ensures (forall k :: 0 <= k <= |calls| ==> Sound(Exec(calls[..k]))) <==> !DropsAThread(calls)
  {
    hide Step, Exec, Drops;
    if DropsAThread(calls) {
      var i :| 0 <= i < |calls| && Drops(calls[i]) && Exec(calls[..i]).thread.running;
      DropLeavesTheThread(calls, i);
    } else {
      forall k | 0 <= k <= |calls|
        ensures Sound(Exec(calls[..k]))
      {
        if DropsAThread(calls[..k]) {
          DropsStay(calls, k);
        }
        UndroppedIsSound(calls[..k]);
      }
    }
  }

  lemma DropLeavesTheThread(calls: seq<Call>, i: nat)
    requires i < |calls| && Drops(calls[i]) && Exec(calls[..i]).thread.running
    ensures !Sound(Exec(calls[..i + 1]))
  {
    assert calls[..i + 1] == calls[..i] + [calls[i]];
    RunOneMore(INITIAL, calls[..i], calls[i]);
  }

  // ---- How long the thread outlives the connection ----

  predicate SetsACallback(c: Call) {
    c.SetJointsCallback? || c.SetHandStateCallback? || c.SetTactileDataCallback?
  }

  ghost predicate ClosesTactile(calls: seq<Call>) {
    exists i :: 0 <= i < |calls| && calls[i].CloseTactile?
  }

  ghost predicate SetsAny(calls: seq<Call>) {
    exists i :: 0 <= i < |calls| && SetsACallback(calls[i])
  }

  /** Neither a connection nor a Disconnect. */
  ghost predicate StaysApart(calls: seq<Call>) {
    forall i :: 0 <= i < |calls| ==> calls[i] != Connect(Established) && calls[i] != Disconnect
  }

  /** What kept the thread at `s` still keeps it after these calls. */
  ghost predicate Held(s: State, calls: seq<Call>) {
    || s.polled.joints || s.polled.handState
    || (!ClosesTactile(calls) && (s.polled.tactile || !SetsAny(calls)))
  }

  lemma SetOneMore(calls: seq<Call>, c: Call)
    ensures ClosesTactile(calls + [c]) <==> ClosesTactile(calls) || c.CloseTactile?
    ensures SetsAny(calls + [c]) <==> SetsAny(calls) || SetsACallback(c)
    ensures StaysApart(calls + [c]) <==> StaysApart(calls) && c != Connect(Established) && c != Disconnect
  {
    var all := calls + [c];
    assert all[|calls|] == c && forall i :: 0 <= i < |calls| ==> all[i] == calls[i];
    if StaysApart(all) {
      assert forall i :: 0 <= i < |calls| ==> calls[i] == all[i];
    }
  }

  /** Without a connection only closing the tactile sensor and, once nothing is to be polled,
      setting a callback makes a difference to the thread. */
  lemma {:induction false} ApartFrom(s: State, calls: seq<Call>)
    requires Consistent(s) && !s.link.connected && s.thread.running && StaysApart(calls)
    ensures var after := RunFrom(s, calls);
            && !after.link.connected && Consistent(after)
            && after.polled.joints == s.polled.joints && after.polled.handState == s.polled.handState
            && (after.polled.tactile <==> s.polled.tactile && !ClosesTactile(calls))
            && (after.thread.running <==> Held(s, calls))
  {
    if calls != [] {
      var before, last := calls[..|calls| - 1], calls[|calls| - 1];
      assert calls == before + [last];
      SetOneMore(before, last);
      ApartFrom(s, before);
      ApartStep(RunFrom(s, before), last);
    }
  }

  lemma ApartStep(s: State, c: Call)
    requires Consistent(s) && !s.link.connected && c != Connect(Established) && c != Disconnect
    ensures var after := Step(s, c);
            && !after.link.connected && Consistent(after)
            && after.polled.joints == s.polled.joints && after.polled.handState == s.polled.handState
            && (after.polled.tactile <==> s.polled.tactile && !c.CloseTactile?)
            && (after.thread.running <==> s.thread.running && (Any(after.polled) || !(c.CloseTactile? || SetsACallback(c))))
  {
  }

  /** Connected, with a thread, a handshake failed at call `i`, and since then there was neither
      a connection nor a Disconnect. */
  ghost predicate DroppedAt(calls: seq<Call>, i: nat)
    requires i < |calls|
  {
    && Drops(calls[i]) && Exec(calls[..i]).link.connected && Exec(calls[..i]).thread.running
    && StaysApart(calls[i + 1..])
  }

  lemma SinceTheDrop(calls: seq<Call>, i: nat)
    requires i < |calls| && DroppedAt(calls, i)
    ensures !Exec(calls).link.connected
    ensures Exec(calls).thread.running <==> Held(Exec(calls[..i]), calls[i + 1..])
  {
    hide Step, Held;
    var s, rest := Exec(calls[..i]), calls[i + 1..];
    assert calls == (calls[..i] + [calls[i]]) + rest;
    AlwaysConsistent(calls[..i]);
    RunOneMore(INITIAL, calls[..i], calls[i]);
    RunConcat(INITIAL, calls[..i] + [calls[i]], rest);
    DropStep(s, calls[i], rest);
    ApartFrom(Step(s, calls[i]), rest);
  }

  lemma DropStep(s: State, c: Call, rest: seq<Call>)
    requires Consistent(s) && s.thread.running && Drops(c)
    ensures var after := Step(s, c);
            Consistent(after) && !after.link.connected && after.thread.running && (Held(after, rest) <==> Held(s, rest))
  {
  }

  lemma {:induction false} ADropIsBehind(calls: seq<Call>) returns (i: nat)
    requires Exec(calls).thread.running && !Exec(calls).link.connected
    ensures i < |calls| && DroppedAt(calls, i)
  {
    hide Step, Drops;
    var n := |calls| - 1;
    var before, last := calls[..n], calls[n];
    assert calls == before + [last];
    AlwaysConsistent(before);
    ThreadWithoutConnection(Exec(before), last);
    if Exec(before).link.connected {
      i := n;
      assert calls[n + 1..] == [];
    } else {
      i := ADropIsBehind(before);
      assert calls[..i] == before[..i] && calls[i + 1..] == before[i + 1..] + [last];
      SetOneMore(before[i + 1..], last);
    }
  }

  lemma ThreadWithoutConnection(s: State, c: Call)
    requires Consistent(s) && Step(s, c).thread.running && !Step(s, c).link.connected
    ensures s.thread.running && c != Disconnect && c != Connect(Established)
    ensures s.link.connected ==> Drops(c)
  {
  }

  /** The thread outlives the connection iff a handshake failed over a connection with a thread,
      nothing has connected or disconnected since, and what was polled then still holds it:
      joints or hand states do whatever callbacks are set or cleared now, tactile data until
      the sensor is closed. */
  lemma ThreadOutlivesConnectionIff(calls: seq<Call>)
    ensures Exec(calls).thread.running && !Exec(calls).link.connected <==>
            exists i :: 0 <= i < |calls| && DroppedAt(calls, i) && Held(Exec(calls[..i]), calls[i + 1..])
  {
    hide Exec, DroppedAt, Held;
    if Exec(calls).thread.running && !Exec(calls).link.connected {
      var i := ADropIsBehind(calls);
      SinceTheDrop(calls, i);
    }
    forall i | 0 <= i < |calls| && DroppedAt(calls, i) && Held(Exec(calls[..i]), calls[i + 1..])
      ensures Exec(calls).thread.running && !Exec(calls).link.connected
    {
      SinceTheDrop(calls, i);
    }
  }

  /** Such a thread, with no callback left, is not even ended by the next connection. */
  lemma ForgottenThreadExample()
    ensures var calls := [SetJointsCallback(true), Connect(Established), Connect(NotEstablished), SetJointsCallback(false)];
            && Exec(calls).thread.running && !Exec(calls).link.connected && !Exec(calls).listeners.joints
            && Exec(calls + [Connect(Established)]).thread.running && !Any(Exec(calls + [Connect(Established)]).polled)
  {
    hide RunFrom;
    RunOneMore(INITIAL, [], SetJointsCallback(true));
    RunOneMore(INITIAL, [SetJointsCallback(true)], Connect(Established));
    RunOneMore(INITIAL, [SetJointsCallback(true), Connect(Established)], Connect(NotEstablished));
    RunOneMore(INITIAL, [SetJointsCallback(true), Connect(Established), Connect(NotEstablished)], SetJointsCallback(false));
    var calls := [SetJointsCallback(true), Connect(Established), Connect(NotEstablished), SetJointsCallback(false)];
    RunOneMore(INITIAL, calls, Connect(Established));
    RunNothing(INITIAL);
    assert [SetJointsCallback(true)] == [] + [SetJointsCallback(true)];
    assert [SetJointsCallback(true), Connect(Established)] == [SetJointsCallback(true)] + [Connect(Established)];
    assert [SetJointsCallback(true), Connect(Established), Connect(NotEstablished)]
        == [SetJointsCallback(true), Connect(Established)] + [Connect(NotEstablished)];
    assert calls == [SetJointsCallback(true), Connect(Established), Connect(NotEstablished)] + [SetJointsCallback(false)];
  }

  lemma RunNothing(s: State)
    ensures RunFrom(s, []) == s
  {
  }

  // ---- Who is really connected ----

  predicate Ends(c: Call) {
    c == Disconnect || Drops(c)
  }

  predicate OpensPort(c: Call) {
    c == Connect(Established) || c == Listen(Opened)
  }

  predicate ShutsPort(c: Call) {
    c == Disconnect || Drops(c) || c == Connect(NotOpened) || c == Listen(Failed)
  }

  function ConnectedMark(s: State, c: Call): Option<bool> {
    if c == Connect(Established) then Some(true) else if Ends(c) then Some(false) else None
  }

  function PortMark(s: State, c: Call): Option<bool> {
    if OpensPort(c) then Some(true) else if ShutsPort(c) then Some(false) else None
  }

  lemma LinkStep(s: State, c: Call)
    ensures Step(s, c).link.connected == if ConnectedMark(s, c).Some? then ConnectedMark(s, c).value else s.link.connected
    ensures Step(s, c).link.portOpen == if PortMark(s, c).Some? then PortMark(s, c).value else s.link.portOpen
  {
  }

  /** `connected` remembers that a device took the connection until a Disconnect or a failed
      handshake; whether the port is open depends on the last attempt to open it. */
  lemma {:induction false} ConnectionHistory(calls: seq<Call>)
    ensures Exec(calls).link.connected <==> MarkedSince(calls, Exec, ConnectedMark)
    ensures Exec(calls).link.portOpen <==> MarkedSince(calls, Exec, PortMark)
  {
    if calls != [] {
      var before, last := calls[..|calls| - 1], calls[|calls| - 1];
      assert calls == before + [last];
      hide Step, MarkedSince, ConnectedMark, PortMark;
      ConnectionHistory(before);
      LinkStep(Exec(before), last);
      MarkedOneMore(before, last, Exec, ConnectedMark);
      MarkedOneMore(before, last, Exec, PortMark);
    }
  }

  // ---- Who listens, and what is polled ----

  function JointsMark(s: State, c: Call): Option<bool> {
    if c.SetJointsCallback? then Some(c.present) else None
  }

  function HandStateMark(s: State, c: Call): Option<bool> {
    if c.SetHandStateCallback? then Some(c.present) else None
  }

  function TactileMark(s: State, c: Call): Option<bool> {
    if c.SetTactileDataCallback? then Some(c.present) else None
  }

  lemma ListenerStep(s: State, c: Call)
    ensures var next := Step(s, c).listeners;
            && next.joints == (if JointsMark(s, c).Some? then JointsMark(s, c).value else s.listeners.joints)
            && next.handState == (if HandStateMark(s, c).Some? then HandStateMark(s, c).value else s.listeners.handState)
            && next.tactile == (if TactileMark(s, c).Some? then TactileMark(s, c).value else s.listeners.tactile)
  {
  }

  /** A callback is there iff it was set last. */
  lemma {:induction false} ListenerHistory(calls: seq<Call>)
    ensures Exec(calls).listeners.joints <==> MarkedSince(calls, Exec, JointsMark)
    ensures Exec(calls).listeners.handState <==> MarkedSince(calls, Exec, HandStateMark)
    ensures Exec(calls).listeners.tactile <==> MarkedSince(calls, Exec, TactileMark)
  {
    if calls != [] {
      var before, last := calls[..|calls| - 1], calls[|calls| - 1];
      assert calls == before + [last];
      hide Step, MarkedSince, JointsMark, HandStateMark, TactileMark;
      ListenerHistory(before);
      ListenerStep(Exec(before), last);
      MarkedOneMore(before, last, Exec, JointsMark);
      MarkedOneMore(before, last, Exec, HandStateMark);
      MarkedOneMore(before, last, Exec, TactileMark);
    }
  }

  /** Connecting turns on what has a listener, a callback set or cleared while connected decides
      about its kind, and a Disconnect turns all off; without a connection callbacks decide
      nothing. */
  function JointsPolledMark(s: State, c: Call): Option<bool> {
    if c == Connect(Established) then Some(s.listeners.joints)
    else if c == Disconnect then Some(false)
    else if c.SetJointsCallback? && s.link.connected then Some(c.present)
    else None
  }

  function HandStatePolledMark(s: State, c: Call): Option<bool> {
    if c == Connect(Established) then Some(s.listeners.handState)
    else if c == Disconnect then Some(false)
    else if c.SetHandStateCallback? && s.link.connected then Some(c.present)
    else None
  }

  /** Tactile data is different: not connecting, but opening the sensor turns it on. */
  function TactilePolledMark(s: State, c: Call): Option<bool> {
    if c.OpenTactile? && c.accepted && s.link.connected && s.link.portOpen then Some(s.listeners.tactile)
    else if c.CloseTactile? || c == Disconnect then Some(false)
    else if c.SetTactileDataCallback? && s.link.connected then Some(c.present)
    else None
  }

  lemma PolledStep(s: State, c: Call)
    ensures var next := Step(s, c).polled;
            && next.joints == (if JointsPolledMark(s, c).Some? then JointsPolledMark(s, c).value else s.polled.joints)
            && next.handState == (if HandStatePolledMark(s, c).Some? then HandStatePolledMark(s, c).value else s.polled.handState)
            && next.tactile == (if TactilePolledMark(s, c).Some? then TactilePolledMark(s, c).value else s.polled.tactile)
  {
  }

  /** What is polled, after any history. */
  lemma {:induction false} PolledHistory(calls: seq<Call>)
    ensures Exec(calls).polled.joints <==> MarkedSince(calls, Exec, JointsPolledMark)
    ensures Exec(calls).polled.handState <==> MarkedSince(calls, Exec, HandStatePolledMark)
    ensures Exec(calls).polled.tactile <==> MarkedSince(calls, Exec, TactilePolledMark)
  {
    if calls != [] {
      var before, last := calls[..|calls| - 1], calls[|calls| - 1];
      assert calls == before + [last];
      hide Step, MarkedSince, JointsPolledMark, HandStatePolledMark, TactilePolledMark;
      PolledHistory(before);
      PolledStep(Exec(before), last);
      MarkedOneMore(before, last, Exec, JointsPolledMark);
      MarkedOneMore(before, last, Exec, HandStatePolledMark);
      MarkedOneMore(before, last, Exec, TactilePolledMark);
    }
  }
}
