/** Which frames reach a subscriber: joint frames are compared with what was last
    delivered, hand states with what came just before. */
module CallbackManager {
  import opened Bytes
  import opened HandTypes

  const STOPPED: Code := 0
  const NORMAL: Code := 0
  const ANGLE_THRESHOLD: real := 1.0
  const TEMPERATURE_THRESHOLD: int := 1
  const FRESHNESS_MS: int := 100
  const NANOS_PER_MS: int := 1_000_000

  /** Whole milliseconds between two readings of the clock, fractions dropped toward zero. */
  function AgeMs(since: int, now: int): int {
    if now >= since then (now - since) / NANOS_PER_MS else -((since - now) / NANOS_PER_MS)
  }

  function Abs(x: real): real {
    if x < 0.0 then -x else x
  }

  function AbsInt(x: int): int {
    if x < 0 then -x else x
  }

  /** The first joint with this id. */
  function Find(joints: seq<Joint>, id: JointId): (r: Option<Joint>)
    ensures r.Some? ==> r.value in joints && r.value.id == id
    ensures r.None? <==> forall j :: j in joints ==> j.id != id
  {
    if joints == [] then None
    else if joints[0].id == id then Some(joints[0])
    else Find(joints[1..], id)
  }

  /** A joint says nothing a subscriber holding `baseline` does not know. */
  predicate Known(baseline: seq<Joint>, joint: Joint) {
    var previous := Find(baseline, joint.id);
    && previous.Some?
    && joint.state == previous.value.state && joint.error == previous.value.error
    && Abs(joint.angle - previous.value.angle) <= ANGLE_THRESHOLD
  }

  /** Nothing in the frame is news, and what was delivered is still fresh. */
  predicate UpToDate(baseline: seq<Joint>, triggeredAt: int, frame: seq<Joint>, now: int) {
    && baseline != []
    && (forall j :: j in frame ==> Known(baseline, j))
    && AgeMs(triggeredAt, now) <= FRESHNESS_MS
  }

  /** The same question about hand states. */
  predicate StateUpToDate(last: HandState, triggeredAt: int, current: HandState, now: int) {
    && current.state == last.state && current.error == last.error
    && AbsInt(current.temperature - last.temperature) <= TEMPERATURE_THRESHOLD
    && AgeMs(triggeredAt, now) <= FRESHNESS_MS
  }

  class GHandCallbackManager {
    var lastJoints: seq<Joint>
    var lastDeliveredJoints: seq<Joint>
    var lastState: HandState
    var lastJointCallbackTime: int
    var lastTempCallbackTime: int
    var hasJointsCallback: bool
    var hasHandStateCallback: bool
    var jointCalls: seq<seq<Joint>>         // what the joints callback was called with
    var handStateCalls: seq<HandState>      // what the hand-state callback was called with

    ghost function JointView(): JointFilter
      reads this
    {
      JointFilter(lastJoints, lastDeliveredJoints, lastJointCallbackTime)
    }

    ghost function HandView(): HandFilter
      reads this
    {
      HandFilter(lastState, lastTempCallbackTime)
    }

    constructor (now: int)
      ensures JointView() == NewJointFilter(now) && HandView() == NewHandFilter(now)
      ensures jointCalls == [] && handStateCalls == [] && !hasJointsCallback && !hasHandStateCallback
    {
      lastJoints, lastDeliveredJoints := [], [];
      lastState := HandState(STOPPED, NORMAL, 0);
      lastJointCallbackTime, lastTempCallbackTime := now, now;
      hasJointsCallback, hasHandStateCallback := false, false;
      jointCalls, handStateCalls := [], [];
    }

    method HasJointDataChanged(joints: seq<Joint>, now: int) returns (changed: bool)
      ensures changed == !UpToDate(lastDeliveredJoints, lastJointCallbackTime, joints, now)
    {
      if lastDeliveredJoints == [] {
        return true;
      }
      for i := 0 to |joints|
        invariant forall k :: 0 <= k < i ==>
          var previous := Find(lastDeliveredJoints, joints[k].id);
          previous.Some? && joints[k].state == previous.value.state && joints[k].error == previous.value.error
      {
        var previous := Find(lastDeliveredJoints, joints[i].id);
        if previous.None? || joints[i].state != previous.value.state || joints[i].error != previous.value.error {
          assert !Known(lastDeliveredJoints, joints[i]);
          return true;
        }
      }
      for i := 0 to |joints|
        invariant forall k :: 0 <= k < i ==> Known(lastDeliveredJoints, joints[k])
      {
        var previous := Find(lastDeliveredJoints, joints[i].id);
        if previous.Some? && Abs(joints[i].angle - previous.value.angle) > ANGLE_THRESHOLD {
          assert !Known(lastDeliveredJoints, joints[i]);
          return true;
        }
      }
      return AgeMs(lastJointCallbackTime, now) > FRESHNESS_MS;
    }

    /** The clock is read when the age is checked, and again when a trigger is noted. */
    method UpdateJoints(joints: seq<Joint>, now: int, stamp: int)
      modifies `lastJoints, `lastDeliveredJoints, `lastJointCallbackTime, `jointCalls
      ensures JointView() == JointStep(old(JointView()), joints, now, stamp)
      ensures jointCalls == old(jointCalls) +
        (if JointTriggers(old(JointView()), joints, now) && hasJointsCallback then [joints] else [])
    {
      lastJoints := joints;
      var changed := HasJointDataChanged(joints, now);
      if changed {
        lastDeliveredJoints := joints;
        lastJointCallbackTime := stamp;
        if hasJointsCallback {
          jointCalls := jointCalls + [joints];
        }
      }
    }

    method UpdateTemperature(temperature: HandState, now: int, stamp: int)
      modifies `lastState, `lastTempCallbackTime, `handStateCalls
      ensures HandView() == HandStep(old(HandView()), temperature, now, stamp)
      ensures handStateCalls == old(handStateCalls) +
        (if HandTriggers(old(HandView()), temperature, now) && hasHandStateCallback then [temperature] else [])
    {
      var changed := !StateUpToDate(lastState, lastTempCallbackTime, temperature, now);
      if changed {
        lastTempCallbackTime := stamp;
        if hasHandStateCallback {
          handStateCalls := handStateCalls + [temperature];
        }
      }
      lastState := temperature;
    }
  }

  // ---- The two filters as state machines ----

  datatype JointFilter = JointFilter(cached: seq<Joint>, baseline: seq<Joint>, triggeredAt: int)

  datatype HandFilter = HandFilter(last: HandState, triggeredAt: int)

  function NewJointFilter(now: int): JointFilter {
    JointFilter([], [], now)
  }

  function NewHandFilter(now: int): HandFilter {
    HandFilter(HandState(STOPPED, NORMAL, 0), now)
  }

  predicate JointTriggers(f: JointFilter, frame: seq<Joint>, now: int) {
    !UpToDate(f.baseline, f.triggeredAt, frame, now)
  }

  function JointStep(f: JointFilter, frame: seq<Joint>, now: int, stamp: int): JointFilter {
    if JointTriggers(f, frame, now) then JointFilter(frame, frame, stamp) else f.(cached := frame)
  }

  predicate HandTriggers(f: HandFilter, state: HandState, now: int) {
    !StateUpToDate(f.last, f.triggeredAt, state, now)
  }

  function HandStep(f: HandFilter, state: HandState, now: int, stamp: int): HandFilter {
    HandFilter(state, if HandTriggers(f, state, now) then stamp else f.triggeredAt)
  }

  datatype JointUpdate = JointUpdate(frame: seq<Joint>, at: int, stamp: int)

  datatype HandUpdate = HandUpdate(state: HandState, at: int, stamp: int)

  /** The joint filter after a run of updates. */
  function JointRun(start: int, run: seq<JointUpdate>): JointFilter {
    if run == [] then NewJointFilter(start)
    else JointStep(JointRun(start, run[..|run| - 1]), run[|run| - 1].frame, run[|run| - 1].at, run[|run| - 1].stamp)
  }

  predicate JointTriggersAt(start: int, run: seq<JointUpdate>, i: nat)
    requires i < |run|
  {
    JointTriggers(JointRun(start, run[..i]), run[i].frame, run[i].at)
  }

  function HandRun(start: int, run: seq<HandUpdate>): HandFilter {
    if run == [] then NewHandFilter(start)
    else HandStep(HandRun(start, run[..|run| - 1]), run[|run| - 1].state, run[|run| - 1].at, run[|run| - 1].stamp)
  }

  predicate HandTriggersAt(start: int, run: seq<HandUpdate>, i: nat)
    requires i < |run|
  {
    HandTriggers(HandRun(start, run[..i]), run[i].state, run[i].at)
  }

  // ---- Joint frames do not drift ----

  /** Between one trigger and the next the baseline is the frame that triggered. */
  lemma {:induction false} BaselineIsLastTriggered(start: int, run: seq<JointUpdate>, i: nat, k: nat)
    requires i <= k < |run| && JointTriggersAt(start, run, i)
    requires forall j :: i < j <= k ==> !JointTriggersAt(start, run, j)
    ensures var f := JointRun(start, run[..k + 1]);
            f.baseline == run[i].frame && f.triggeredAt == run[i].stamp
  {
    hide UpToDate;
    var upTo := run[..k + 1];
    assert upTo[..|upTo| - 1] == run[..k] && upTo[|upTo| - 1] == run[k];
    if i < k {
      BaselineIsLastTriggered(start, run, i, k - 1);
      assert !JointTriggersAt(start, run, k);
    }
  }

  /** The index of the last trigger up to `k`; the first update always is one. */
  function LastTrigger(start: int, run: seq<JointUpdate>, k: nat): (i: nat)
    requires k < |run|
    ensures i <= k && JointTriggersAt(start, run, i)
    ensures forall j :: i < j <= k ==> !JointTriggersAt(start, run, j)
  {
    if k == 0 then assert run[..0] == []; 0
    else if JointTriggersAt(start, run, k) then k
    else LastTrigger(start, run, k - 1)
  }

  /** The frame that a caller can ask for is always the latest. */
  lemma CachedIsLatest(start: int, run: seq<JointUpdate>)
    requires run != []
    ensures JointRun(start, run).cached == run[|run| - 1].frame
  {
  }

  /** What a frame says of this joint is not what the baseline says of it: it says nothing, or
      where it first names the joint, another state, another error, or an angle more than one
      degree away. */
  ghost predicate IsNews(baseline: seq<Joint>, joint: Joint) {
    || (forall p :: p in baseline ==> p.id != joint.id)
    || exists q :: 0 <= q < |baseline| && FirstNamed(baseline, joint.id, q) && Differs(baseline[q], joint)
  }

  predicate FirstNamed(joints: seq<Joint>, id: JointId, q: nat)
    requires q < |joints|
  {
    joints[q].id == id && forall p :: 0 <= p < q ==> joints[p].id != id
  }

  predicate Differs(before: Joint, now: Joint) {
    || now.state != before.state || now.error != before.error
    || now.angle > before.angle + 1.0 || now.angle < before.angle - 1.0
  }

  lemma {:induction false} FindIsFirstNamed(joints: seq<Joint>, id: JointId, q: nat)
    requires q < |joints| && FirstNamed(joints, id, q)
    ensures Find(joints, id) == Some(joints[q])
  {
    if q > 0 {
      assert joints[0].id != id;
      assert forall p :: 0 <= p < q - 1 ==> joints[1..][p] == joints[p + 1];
      FindIsFirstNamed(joints[1..], id, q - 1);
    }
  }

  lemma {:induction false} FoundIsFirstNamed(joints: seq<Joint>, id: JointId) returns (q: nat)
    requires Find(joints, id).Some?
    ensures q < |joints| && FirstNamed(joints, id, q) && Find(joints, id) == Some(joints[q])
  {
    q := 0;
    if joints[0].id != id {
      q := FoundIsFirstNamed(joints[1..], id);
      q := q + 1;
      assert forall p :: 1 <= p < q ==> joints[p] == joints[1..][p - 1];
    }
  }

  lemma KnownIffNoNews(baseline: seq<Joint>, joint: Joint)
    ensures Known(baseline, joint) <==> !IsNews(baseline, joint)
  {
    if Find(baseline, joint.id).Some? {
      var q := FoundIsFirstNamed(baseline, joint.id);
      forall p: nat | p < |baseline| && FirstNamed(baseline, joint.id, p)
        ensures p == q
      {
      }
    }
  }

  lemma LateIff(since: int, now: int)
    ensures AgeMs(since, now) > FRESHNESS_MS <==> now - since >= 101_000_000
  {
  }

  ghost predicate HasNews(baseline: seq<Joint>, frame: seq<Joint>) {
    exists j :: j in frame && IsNews(baseline, j)
  }

  lemma UpToDateIff(baseline: seq<Joint>, since: int, frame: seq<Joint>, now: int)
    ensures UpToDate(baseline, since, frame, now) <==>
            baseline != [] && !HasNews(baseline, frame) && now - since < 101_000_000
  {
    hide AgeMs, Known, IsNews;
    LateIff(since, now);
    forall j: Joint
      ensures Known(baseline, j) <==> !IsNews(baseline, j)
    {
      KnownIffNoNews(baseline, j);
    }
  }

  /** Exactly what is handed on: the first update, and a later one iff it comes 101 ms or more
      after the last trigger, or has news against the frame of that trigger, or that was empty.
      Everything else is held back. */
  lemma JointTriggersIff(start: int, run: seq<JointUpdate>, k: nat)
    requires k < |run|
    ensures JointTriggersAt(start, run, k) <==>
            || k == 0
            || var last := run[LastTrigger(start, run, k - 1)];
               last.frame == [] || HasNews(last.frame, run[k].frame) || run[k].at - last.stamp >= 101_000_000
  {
    hide UpToDate, HasNews;
    if k == 0 {
      assert run[..0] == [];
      UpToDateIff([], start, run[0].frame, run[0].at);
    } else {
      var i := LastTrigger(start, run, k - 1);
      BaselineIsLastTriggered(start, run, i, k - 1);
      assert run[..k - 1 + 1] == run[..k];
      UpToDateIff(run[i].frame, run[i].stamp, run[k].frame, run[k].at);
    }
  }

  /** After every update of every run, however slowly the hand moves: the last frame that
      triggered is at most 100 whole milliseconds old, and every joint of the current frame
      has its state and error there and an angle within one degree. */
  lemma NoDrift(start: int, run: seq<JointUpdate>, k: nat)
    requires k < |run|
    ensures var i := LastTrigger(start, run, k);
            || i == k
            || (&& AgeMs(run[i].stamp, run[k].at) <= FRESHNESS_MS
                && forall j :: j in run[k].frame ==> Known(run[i].frame, j))
  {
    var i := LastTrigger(start, run, k);
    if i < k {
      BaselineIsLastTriggered(start, run, i, k - 1);
    }
  }

  /** What slips by between two triggers: any two frames not separated by a trigger are
      within two degrees of each other, joint by joint, however many frames lie between. */
  lemma BoundedMotionBetweenTriggers(start: int, run: seq<JointUpdate>, a: nat, b: nat, x: Joint, y: Joint)
    requires a < b < |run| && LastTrigger(start, run, a) == LastTrigger(start, run, b)
    requires x in run[a].frame && y in run[b].frame && x.id == y.id
    requires Find(run[a].frame, x.id) == Some(x)
    ensures x.state == y.state && x.error == y.error && Abs(x.angle - y.angle) <= 2.0 * ANGLE_THRESHOLD
    ensures LastTrigger(start, run, b) == a ==> Abs(x.angle - y.angle) <= ANGLE_THRESHOLD
  {
    var i := LastTrigger(start, run, b);
    NoDrift(start, run, a);
    NoDrift(start, run, b);
    assert Known(run[i].frame, y);
    if i < a {
      assert Known(run[i].frame, x);
    }
  }

  // ---- Hand states do ----

  /** The index of the last hand-state trigger up to `k`, if there is one. */
  function LastHandTrigger(start: int, run: seq<HandUpdate>, k: nat): (i: Option<nat>)
    requires k < |run|
    ensures i.Some? ==> i.value <= k && HandTriggersAt(start, run, i.value)
    ensures forall j :: (if i.Some? then i.value + 1 else 0) <= j <= k ==> !HandTriggersAt(start, run, j)
  {
    if HandTriggersAt(start, run, k) then Some(k)
    else if k == 0 then None
    else LastHandTrigger(start, run, k - 1)
  }

  /** The hand state a subscriber last heard of: the last one that triggered, or the initial one. */
  function Heard(start: int, run: seq<HandUpdate>, k: nat): HandState
    requires k < |run|
  {
    var i := LastHandTrigger(start, run, k);
    if i.Some? then run[i.value].state else NewHandFilter(start).last
  }

  function FramesSince(start: int, run: seq<HandUpdate>, k: nat): nat
    requires k < |run|
  {
    var i := LastHandTrigger(start, run, k);
    if i.Some? then k - i.value else k + 1
  }

  /** State and error are never out of date; the temperature may be, by one degree for
      every frame since, because each frame is compared with the one before it. */
  lemma {:induction false} HandDriftBound(start: int, run: seq<HandUpdate>, k: nat)
    requires k < |run|
    ensures var heard, now := Heard(start, run, k), run[k].state;
            && heard.state == now.state && heard.error == now.error
            && AbsInt(now.temperature - heard.temperature) <= FramesSince(start, run, k)
  {
    assert run[..k] == if k == 0 then [] else run[..k - 1] + [run[k - 1]];
    if k > 0 {
      HandDriftBound(start, run, k - 1);
      HandFilterHoldsLatest(start, run, k - 1);
    }
  }

  lemma HandFilterHoldsLatest(start: int, run: seq<HandUpdate>, k: nat)
    requires k < |run|
    ensures HandRun(start, run[..k + 1]).last == run[k].state
  {
    assert run[..k + 1][..k] == run[..k];
  }

  /** A hand that warms by one degree a frame, at whatever times the frames come. */
  function Warming(times: seq<int>): (run: seq<HandUpdate>)
    requires |times| < 0x8000
    ensures |run| == |times|
  {
    seq(|times|, i requires 0 <= i < |times| => HandUpdate(HandState(STOPPED, NORMAL, i + 1), times[i], times[i]))
  }

  /** No frame comes so late that it must be delivered. */
  predicate AllFresh(start: int, times: seq<int>) {
    forall i :: 0 <= i < |times| ==> AgeMs(start, times[i]) <= FRESHNESS_MS
  }

  lemma {:induction false} WarmingWhileFresh(start: int, times: seq<int>, k: nat)
    requires k <= |times| < 0x8000 && AllFresh(start, times[..k])
    ensures HandRun(start, Warming(times)[..k]) == HandFilter(HandState(STOPPED, NORMAL, k), start)
    ensures k < |times| ==> (HandTriggersAt(start, Warming(times), k) <==> AgeMs(start, times[k]) > FRESHNESS_MS)
  {
    hide AgeMs;
    var run := Warming(times);
    if k > 0 {
      assert times[..k][k - 1] == times[k - 1] && times[..k - 1] == times[..k][..k - 1];
      WarmingWhileFresh(start, times, k - 1);
      assert run[..k][..k - 1] == run[..k - 1];
    }
  }

  /** Only the freshness deadline limits the drift: such a run triggers nothing at all iff no
      frame is later than 100 whole milliseconds after the start. */
  lemma {:induction false} WarmingIsSilentIff(start: int, times: seq<int>, k: nat)
    requires k <= |times| < 0x8000
    ensures (forall i :: 0 <= i < k ==> !HandTriggersAt(start, Warming(times), i)) <==> AllFresh(start, times[..k])
  {
    hide AgeMs, HandTriggersAt, Warming;
    if k > 0 {
      WarmingIsSilentIff(start, times, k - 1);
      assert times[..k - 1] == times[..k][..k - 1] && times[..k][k - 1] == times[k - 1];
      if AllFresh(start, times[..k - 1]) {
        WarmingWhileFresh(start, times, k - 1);
      }
    }
  }

  /** The bound is reached, as far as 16 bits of temperature go: however many frames come in
      time, and whenever they do, there is a run in which nothing triggers and the temperature
      ends as many degrees from what the subscriber heard. */
  lemma HandDriftIsReal(start: int, times: seq<int>)
    requires 0 < |times| < 0x8000 && AllFresh(start, times)
    ensures var run, k := Warming(times), |times| - 1;
            && LastHandTrigger(start, run, k).None?
            && run[k].state.temperature - Heard(start, run, k).temperature == |times|
  {
    hide AgeMs, HandTriggersAt;
    assert times[..|times|] == times;
    WarmingIsSilentIff(start, times, |times|);
  }

  // ---- When the hand filter does not drift ----

  /** The two readings of the clock that go with an update: one for the comparison, one kept
      if it triggers. */
  datatype Reading = Reading(at: int, stamp: int)

  predicate Fresh(since: int, now: int) {
    AgeMs(since, now) <= FRESHNESS_MS
  }

  function RunAt(readings: seq<Reading>, states: seq<HandState>): (run: seq<HandUpdate>)
    requires |readings| == |states|
    ensures |run| == |readings|
  {
    seq(|readings|, i requires 0 <= i < |readings| => HandUpdate(states[i], readings[i].at, readings[i].stamp))
  }

  predicate IsClose(start: int, run: seq<HandUpdate>, k: nat)
    requires k < |run|
  {
    AbsInt(run[k].state.temperature - Heard(start, run, k).temperature) <= TEMPERATURE_THRESHOLD
  }

  /** After every update the temperature is within one degree of what the subscriber heard. */
  ghost predicate StaysClose(start: int, run: seq<HandUpdate>) {
    forall k: nat :: k < |run| ==> IsClose(start, run, k)
  }

  predicate TwoAreFresh(since: int, readings: seq<Reading>, i: nat) {
    i + 1 < |readings| && Fresh(since, readings[i].at) && Fresh(since, readings[i + 1].at)
  }

  /** No two frames in a row come within the deadline of the start, or of a frame right
      before them. */
  ghost predicate NeverTwoInTime(start: int, readings: seq<Reading>) {
    && !TwoAreFresh(start, readings, 0)
    && forall i: nat :: i < |readings| ==> !TwoAreFresh(readings[i].stamp, readings, i + 1)
  }

  /** What is held when an update comes: the state before it, and when the last trigger was. */
  lemma {:induction false} HandFilterIs(start: int, run: seq<HandUpdate>, k: nat)
    requires k < |run|
    ensures var i := LastHandTrigger(start, run, k);
            HandRun(start, run[..k + 1]) == HandFilter(run[k].state, if i.Some? then run[i.value].stamp else start)
  {
    hide AgeMs;
    assert run[..k + 1][..k] == run[..k];
    if k > 0 {
      HandFilterIs(start, run, k - 1);
    }
  }

  /** Exactly what is handed on of the hand: a state or an error other than the one before, a
      temperature more than one degree from the one before, or whatever comes 101 ms or more after
      the last trigger, or after the start if there was none. */
  lemma HandTriggersIff(start: int, run: seq<HandUpdate>, k: nat)
    requires k < |run|
    ensures var before := if k == 0 then HandState(0, 0, 0) else run[k - 1].state;
            var i := if k == 0 then None else LastHandTrigger(start, run, k - 1);
            HandTriggersAt(start, run, k) <==>
            || run[k].state.state != before.state || run[k].state.error != before.error
            || run[k].state.temperature > before.temperature + 1 || run[k].state.temperature < before.temperature - 1
            || run[k].at - (if i.Some? then run[i.value].stamp else start) >= 101_000_000
  {
    hide AgeMs;
    assert run[..0] == [];
    if k == 0 {
      LateIff(start, run[0].at);
    } else {
      HandFilterIs(start, run, k - 1);
      assert run[..k - 1 + 1] == run[..k];
      var i := LastHandTrigger(start, run, k - 1);
      LateIff(if i.Some? then run[i.value].stamp else start, run[k].at);
    }
  }

  /** Updates that trigger nothing are fresh. */
  lemma SilentIsFresh(start: int, run: seq<HandUpdate>, k: nat, j: nat)
    requires j <= k < |run|
    requires var i := LastHandTrigger(start, run, k); (if i.Some? then i.value + 1 else 0) <= j
    ensures var i := LastHandTrigger(start, run, k);
            Fresh(if i.Some? then run[i.value].stamp else start, run[j].at)
  {
    hide AgeMs;
    assert !HandTriggersAt(start, run, j);
    LastTriggerStays(start, run, k, j);
    if j > 0 {
      HandFilterIs(start, run, j - 1);
      LastTriggerStays(start, run, k, j - 1);
    }
  }

  lemma {:induction false} LastTriggerStays(start: int, run: seq<HandUpdate>, k: nat, j: nat)
    requires j <= k < |run|
    requires var i := LastHandTrigger(start, run, k); i.Some? ==> i.value <= j
    ensures LastHandTrigger(start, run, j) == LastHandTrigger(start, run, k)
  {
    hide HandTriggersAt;
    if j < k {
      LastTriggerStays(start, run, k - 1, j);
    }
  }

  lemma TwoFramesSince(start: int, readings: seq<Reading>, states: seq<HandState>, k: nat)
    requires |readings| == |states| && k < |readings| && FramesSince(start, RunAt(readings, states), k) >= 2
    ensures !NeverTwoInTime(start, readings)
  {
    hide Fresh, HandTriggersAt;
    var run := RunAt(readings, states);
    var i := LastHandTrigger(start, run, k);
    var first: nat := if i.Some? then i.value + 1 else 0;
    SilentIsFresh(start, run, k, first);
    SilentIsFresh(start, run, k, first + 1);
    assert TwoAreFresh(if i.Some? then readings[i.value].stamp else start, readings, first);
  }

  lemma CloseIfNeverTwo(start: int, readings: seq<Reading>, states: seq<HandState>, k: nat)
    requires |readings| == |states| && k < |readings| && NeverTwoInTime(start, readings)
    ensures IsClose(start, RunAt(readings, states), k)
  {
    hide NeverTwoInTime, FramesSince, HandTriggersAt;
    HandDriftBound(start, RunAt(readings, states), k);
    if FramesSince(start, RunAt(readings, states), k) >= 2 {
      TwoFramesSince(start, readings, states, k);
    }
  }

  /** Warming by a degree a frame from the start on. */
  function RisingFromStart(n: nat): (states: seq<HandState>)
    ensures |states| == n
  {
    seq(n, j requires 0 <= j < n => HandState(STOPPED, NORMAL, if j == 0 then 1 else 2))
  }

  /** A change of state with frame `i`, and warming by a degree a frame from then on. */
  function RisingFrom(i: nat, n: nat): (states: seq<HandState>)
    ensures |states| == n
  {
    seq(n, j requires 0 <= j < n =>
      if j < i then HandState(STOPPED, NORMAL, 0)
      else HandState(STOPPED + 1, NORMAL, if j == i then 0 else if j == i + 1 then 1 else 2))
  }

  lemma DriftsFromStart(start: int, readings: seq<Reading>)
    requires TwoAreFresh(start, readings, 0)
    ensures !StaysClose(start, RunAt(readings, RisingFromStart(|readings|)))
  {
    hide AgeMs;
    var run := RunAt(readings, RisingFromStart(|readings|));
    assert run[..0] == [] && run[..1][..0] == [];
    assert !HandTriggersAt(start, run, 0) && !HandTriggersAt(start, run, 1);
    assert !IsClose(start, run, 1);
  }

  lemma DriftsFrom(start: int, readings: seq<Reading>, i: nat)
    requires i < |readings| && TwoAreFresh(readings[i].stamp, readings, i + 1)
    ensures !StaysClose(start, RunAt(readings, RisingFrom(i, |readings|)))
  {
    hide AgeMs;
    var run := RunAt(readings, RisingFrom(i, |readings|));
    assert HandRun(start, run[..i]).last.state == STOPPED by {
      if i > 0 {
        HandFilterHoldsLatest(start, run, i - 1);
      }
    }
    assert HandTriggersAt(start, run, i);
    HandFilterIs(start, run, i);
    assert !HandTriggersAt(start, run, i + 1);
    HandFilterIs(start, run, i + 1);
    assert !HandTriggersAt(start, run, i + 2);
    assert !IsClose(start, run, i + 2);
  }

  /** Whatever the hand reports, the temperature a subscriber heard of stays within one degree
      of the latest iff no two frames in a row come within 100 whole milliseconds of the start
      or of the frame right before them. */
  lemma HandStaysCloseIff(start: int, readings: seq<Reading>)
    ensures (forall states: seq<HandState> :: |states| == |readings| ==> StaysClose(start, RunAt(readings, states)))
            <==> NeverTwoInTime(start, readings)
  {
    hide TwoAreFresh, IsClose, RunAt, Fresh;
    if NeverTwoInTime(start, readings) {
      forall states: seq<HandState>, k: nat | |states| == |readings| && k < |readings|
        ensures IsClose(start, RunAt(readings, states), k)
      {
        CloseIfNeverTwo(start, readings, states, k);
      }
    } else if TwoAreFresh(start, readings, 0) {
      DriftsFromStart(start, readings);
    } else {
      var i: nat :| i < |readings| && TwoAreFresh(readings[i].stamp, readings, i + 1);
      DriftsFrom(start, readings, i);
    }
  }
}
