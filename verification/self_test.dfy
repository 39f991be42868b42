/** The self-test query: a summary, then details of the flagged categories only. The SDK has
    it twice, over Modbus registers and over EtherCAT objects. */
module SelfTest {
  import opened Bytes
  import opened ByteValues
  import opened HandTypes
  import opened ProductConfiguration

  const CODE_COUNT: nat := 13

  type Codes = s: seq<byte> | |s| == CODE_COUNT witness [0, 0, 0, 0, 0, 0, 0, 0, 0, 0, 0, 0, 0]

  const STATE_IDLE: byte := 0
  const STATE_SUCCESS: byte := 2
  const STATE_FAILED: byte := 3

  // ---- What a query finds ----

  /** How a device answers a command, given the commands it was asked before. */
  type Device = (seq<byte>, byte) -> Option<Codes>

  datatype Category = Category(flag: byte, command: byte)

  const SUMMARY: byte := 0xA0

  const VERSION: Category := Category(0x80, 0xA1)
  const POSITION_SENSOR: Category := Category(0x40, 0xA2)
  const TACTILE_SENSOR: Category := Category(0x20, 0xA3)
  const TEMPERATURE: Category := Category(0x10, 0xA4)
  const FAN: Category := Category(0x08, 0xA5)
  const ZEROING: Category := Category(0x04, 0xA6)
  const MOTOR: Category := Category(0x01, 0xA8)

  const CATEGORIES: seq<Category> := [VERSION, POSITION_SENSOR, TACTILE_SENSOR, TEMPERATURE, FAN, ZEROING, MOTOR]

  predicate HasFlag(summary: byte, flag: byte) {
    summary & flag != 0
  }

  /** The commands asked by the time `n` categories are done. */
  function Queries(summary: byte, n: nat): seq<byte>
    requires n <= |CATEGORIES|
  {
    if n == 0 then [SUMMARY]
    else
      Queries(summary, n - 1) +
      (if HasFlag(summary, CATEGORIES[n - 1].flag) then [CATEGORIES[n - 1].command] else [])
  }

  /** The answer to category `k`, if it is flagged and answered. */
  function Detail(device: Device, summary: byte, k: nat): Option<Codes>
    requires k < |CATEGORIES|
  {
    if HasFlag(summary, CATEGORIES[k].flag) then device(Queries(summary, k), CATEGORIES[k].command) else None
  }

  datatype MotorError = MotorError(motorIndex: nat, jointId: JointId, errorCode: byte)

  datatype SelfTestErrorInfo = SelfTestErrorInfo(
    summary: byte, version: byte, positionSensor: seq<MotorError>, tactileSensor: seq<MotorError>,
    temperature: byte, fan: byte, zeroing: seq<MotorError>, motor: seq<MotorError>)

  const NO_ERRORS: SelfTestErrorInfo := SelfTestErrorInfo(0, 0, [], [], 0, 0, [], [])

  function JointOf(config: ProductConfig, motorIndex: nat): JointId {
    var joints := ControlledJoints(config);
    if motorIndex < |joints| then joints[motorIndex] else NUM_JOINTS
  }

  function Errors(config: ProductConfig, codes: Codes, n: nat): seq<MotorError>
    requires n <= CODE_COUNT
  {
    if n == 0 then []
    else
      Errors(config, codes, n - 1) +
      (if codes[n - 1] == 0 then [] else [MotorError(n - 1, JointOf(config, n - 1), codes[n - 1])])
  }

  function FirstCode(answer: Option<Codes>): byte {
    if answer.Some? then answer.value[0] else 0
  }

  function Motors(config: ProductConfig, answer: Option<Codes>): seq<MotorError> {
    if answer.Some? then Errors(config, answer.value, CODE_COUNT) else []
  }

  function Summary(device: Device): byte {
    FirstCode(device([], SUMMARY))
  }

  function Info(config: ProductConfig, device: Device): SelfTestErrorInfo {
    var summary := Summary(device);
    if summary == 0 then NO_ERRORS
    else
      SelfTestErrorInfo(
        summary, FirstCode(Detail(device, summary, 0)),
        Motors(config, Detail(device, summary, 1)), Motors(config, Detail(device, summary, 2)),
        FirstCode(Detail(device, summary, 3)), FirstCode(Detail(device, summary, 4)),
        Motors(config, Detail(device, summary, 5)), Motors(config, Detail(device, summary, 6)))
  }

  function Asked(device: Device): seq<byte> {
    var summary := Summary(device);
    if summary == 0 then [SUMMARY] else Queries(summary, |CATEGORIES|)
  }

  // ---- What the lists contain ----

  /** Exactly the motors with a code, in increasing order, each with the joint in its place
      among the controlled joints, or with no joint if there are fewer. */
  lemma {:induction false} ErrorsListExactly(config: ProductConfig, codes: Codes, n: nat)
    requires n <= CODE_COUNT
    ensures var errors := Errors(config, codes, n);
            && (forall i :: 0 <= i < n && codes[i] != 0 ==> MotorError(i, JointOf(config, i), codes[i]) in errors)
            && (forall e :: e in errors ==>
                  e.motorIndex < n && e == MotorError(e.motorIndex, JointOf(config, e.motorIndex), codes[e.motorIndex]) &&
                  e.errorCode != 0)
            && (forall a, b :: 0 <= a < b < |errors| ==> errors[a].motorIndex < errors[b].motorIndex)
  {
    hide JointOf;
    if n > 0 {
      ErrorsListExactly(config, codes, n - 1);
      ErrorsOneMore(config, codes, n - 1);
      hide Errors;
      var before, errors := Errors(config, codes, n - 1), Errors(config, codes, n);
      if codes[n - 1] != 0 {
        forall e | e in errors
          ensures e in before || e == MotorError(n - 1, JointOf(config, n - 1), codes[n - 1])
        {
        }
        forall a, b | 0 <= a < b < |errors|
          ensures errors[a].motorIndex < errors[b].motorIndex
        {
          assert errors[a] == before[a] && before[a] in before;
        }
        assert errors[|before|] in errors && before <= errors;
      }
    }
  }

  lemma ErrorsOneMore(config: ProductConfig, codes: Codes, n: nat)
    requires n < CODE_COUNT
    ensures Errors(config, codes, n + 1) ==
            if codes[n] == 0 then Errors(config, codes, n)
            else Errors(config, codes, n) + [MotorError(n, JointOf(config, n), codes[n])]
  {
    hide JointOf;
  }

  /** That goes for all thirteen motors of an answer. */
  lemma MotorsListAll(config: ProductConfig, codes: Codes)
    ensures var errors := Motors(config, Some(codes));
            && (forall i :: 0 <= i < 13 && codes[i] != 0 ==> MotorError(i, JointOf(config, i), codes[i]) in errors)
            && (forall e :: e in errors ==>
                  e.motorIndex < 13 && e.jointId == JointOf(config, e.motorIndex) && e.errorCode == codes[e.motorIndex] != 0)
  {
    hide JointOf, Errors;
    ErrorsListExactly(config, codes, 13);
  }

  /** No code, no error: what makes a failed query and a flagged category without codes alike. */
  lemma {:induction false} ZeroCodesListNothing(config: ProductConfig, codes: Codes, n: nat)
    requires n <= CODE_COUNT && forall i :: 0 <= i < n ==> codes[i] == 0
    ensures Errors(config, codes, n) == []
  {
    if n > 0 {
      ZeroCodesListNothing(config, codes, n - 1);
    }
  }

  /** The joint of a motor: the listed joint with limits that has so many of them before it. */
  lemma {:induction false} PlaceAmongCommandable(joints: seq<JointId>, limits: map<JointId, Limits>, p: nat)
    requires p < |joints| && joints[p] in limits
    ensures var m := |Commandable(joints[..p], limits)|;
            m < |Commandable(joints, limits)| && Commandable(joints, limits)[m] == joints[p]
  {
    var n := |joints| - 1;
    if p < n {
      assert joints[..n][..p] == joints[..p];
      PlaceAmongCommandable(joints[..n], limits, p);
    }
  }

  /** That is the joint that is reported; and there is none iff there are not so many. */
  lemma JointOfIs(config: ProductConfig, p: nat)
    requires p < |config.validJoints| && config.validJoints[p] in config.jointLimits
    ensures JointOf(config, |Commandable(config.validJoints[..p], config.jointLimits)|) == config.validJoints[p]
    ensures forall m: nat :: m >= |ControlledJoints(config)| ==> JointOf(config, m) == NUM_JOINTS
  {
    hide Commandable;
    PlaceAmongCommandable(config.validJoints, config.jointLimits, p);
  }

  predicate Increase(asked: seq<byte>) {
    forall i, j :: 0 <= i < j < |asked| ==> Value(asked[i]) < Value(asked[j])
  }

  lemma {:induction false} QueriesIncrease(summary: byte, n: nat)
    requires n <= |CATEGORIES|
    ensures var asked := Queries(summary, n);
            && (forall c :: c in asked ==> c == SUMMARY || exists k :: 0 <= k < n && c == CATEGORIES[k].command)
            && Increase(asked)
  {
    CommandsIncrease();
    hide CATEGORIES, HasFlag, Value;
    if n > 0 {
      QueriesIncrease(summary, n - 1);
      var before := Queries(summary, n - 1);
      forall i | 0 <= i < |before|
        ensures Value(before[i]) < Value(CATEGORIES[n - 1].command)
      {
        assert before[i] in before;
      }
    }
  }

  lemma CommandsIncrease()
    ensures forall k :: 0 <= k < |CATEGORIES| ==> Value(SUMMARY) < Value(CATEGORIES[k].command)
    ensures forall j, k :: 0 <= j < k < |CATEGORIES| ==> Value(CATEGORIES[j].command) < Value(CATEGORIES[k].command)
  {
  }

  /** The commands come in the order of their numbers. */
  lemma AskedInOrder(device: Device)
    ensures Increase(Asked(device))
  {
    hide Queries, Value;
    QueriesIncrease(Summary(device), |CATEGORIES|);
  }

  /** Which bit of the summary asks for which details. */
  predicate AsksFor(asked: seq<byte>, summary: byte, flag: byte, command: byte) {
    command in asked <==> summary & flag != 0
  }

  lemma AskedByBits(device: Device)
    ensures var asked, summary := Asked(device), Summary(device);
            && AsksFor(asked, summary, 0x80, 0xA1) && AsksFor(asked, summary, 0x40, 0xA2)
            && AsksFor(asked, summary, 0x20, 0xA3) && AsksFor(asked, summary, 0x10, 0xA4)
            && AsksFor(asked, summary, 0x08, 0xA5) && AsksFor(asked, summary, 0x04, 0xA6)
            && AsksFor(asked, summary, 0x01, 0xA8) && [0xA0] <= asked
  {
    forall k | 0 <= k < 7
      ensures AsksFor(Asked(device), Summary(device), CATEGORIES[k].flag, CATEGORIES[k].command)
    {
      OnlyFlaggedAreAsked(device, k);
    }
    OnlyFlaggedAreAsked(device, 0);
    hide Summary, Asked, AsksFor;
    CategoryOrder();
    assert AsksFor(Asked(device), Summary(device), VERSION.flag, VERSION.command);
  }

  /** A command other than the summary is asked iff its category is flagged, and once at most. */
  lemma OnlyFlaggedAreAsked(device: Device, k: nat)
    requires k < |CATEGORIES|
    ensures CATEGORIES[k].command in Asked(device) <==> HasFlag(Summary(device), CATEGORIES[k].flag)
    ensures Distinct(Asked(device)) && [SUMMARY] <= Asked(device)
    ensures forall c :: c in Asked(device) ==> c == SUMMARY || exists j :: 0 <= j < |CATEGORIES| && CATEGORIES[j].command == c
  {
    var summary := Summary(device);
    NothingIsFlaggedInZero(CATEGORIES[k].flag);
    QueriesAreFlagged(summary, |CATEGORIES|);
    CommandsDiffer();
    hide HasFlag, Queries;
    if summary == 0 {
      assert CATEGORIES[k].command != SUMMARY;
    }
  }

  lemma NothingIsFlaggedInZero(flag: byte)
    ensures !HasFlag(0, flag)
  {
  }

  ghost predicate CommandsAreDistinct() {
    && (forall j :: 0 <= j < |CATEGORIES| ==> CATEGORIES[j].command != SUMMARY)
    && forall i, j :: 0 <= i < j < |CATEGORIES| ==> CATEGORIES[i].command != CATEGORIES[j].command
  }

  lemma CommandsDiffer()
    ensures CommandsAreDistinct()
  {
  }

  lemma {:induction false} QueriesAreFlagged(summary: byte, n: nat)
    requires n <= |CATEGORIES|
    ensures var asked := Queries(summary, n);
            && asked != [] && asked[0] == SUMMARY && Distinct(asked)
            && (forall j :: 0 <= j < |CATEGORIES| ==>
                  (CATEGORIES[j].command in asked <==> j < n && HasFlag(summary, CATEGORIES[j].flag)))
            && (forall c :: c in asked ==> c == SUMMARY || exists j :: 0 <= j < n && CATEGORIES[j].command == c)
  {
    CommandsDiffer();
    hide HasFlag, CATEGORIES;
    if n > 0 {
      QueriesAreFlagged(summary, n - 1);
      DistinctOneMore(Queries(summary, n - 1), CATEGORIES[n - 1].command);
    }
  }

  // ---- What a failed query does ----

  predicate DetailFails(device: Device, k: nat)
    requires k < |CATEGORIES|
  {
    var summary := Summary(device);
    HasFlag(summary, CATEGORIES[k].flag) && device(Queries(summary, k), CATEGORIES[k].command).None?
  }

  /** One of the queries made of the device fails. */
  predicate SomeQueryFails(device: Device) {
    device([], SUMMARY).None? || exists k :: 0 <= k < |CATEGORIES| && DetailFails(device, k)
  }

  /** The result is empty if any query fails, as the interface promises. */
  predicate EmptyOnFailure(config: ProductConfig, device: Device) {
    SomeQueryFails(device) ==> Info(config, device) == NO_ERRORS
  }

  predicate AsksForDetail(summary: byte) {
    exists k :: 0 <= k < |CATEGORIES| && HasFlag(summary, CATEGORIES[k].flag)
  }

  lemma DetailNeedsSummary(device: Device, k: nat)
    requires k < |CATEGORIES| && DetailFails(device, k)
    ensures Summary(device) != 0 && AsksForDetail(Summary(device))
  {
    NothingIsFlaggedInZero(CATEGORIES[k].flag);
    hide HasFlag, CATEGORIES, Summary;
  }

  /** A device that reports `summary` and answers nothing else. */
  function Silent(summary: byte): Device {
    (asked, command) => if asked == [] then Some([summary, 0, 0, 0, 0, 0, 0, 0, 0, 0, 0, 0, 0]) else None
  }

  lemma SilentFails(summary: byte, k: nat)
    requires k < |CATEGORIES| && HasFlag(summary, CATEGORIES[k].flag)
    ensures Summary(Silent(summary)) == summary && DetailFails(Silent(summary), k)
  {
    QueriesAreFlagged(summary, k);
    hide HasFlag, Queries, CATEGORIES;
  }

  /** The promise holds for a device iff none of the details asked of it fails. */
  lemma EmptyOnFailureIff(config: ProductConfig, device: Device)
    ensures EmptyOnFailure(config, device) <==> forall k :: 0 <= k < |CATEGORIES| ==> !DetailFails(device, k)
  {
    hide DetailFails, Detail, Motors, CATEGORIES;
    forall k | 0 <= k < |CATEGORIES| && DetailFails(device, k)
      ensures Summary(device) != 0
    {
      DetailNeedsSummary(device, k);
    }
  }

  /** It holds for every device that reports a summary iff that summary asks for no detail. */
  lemma EmptyOnFailureIffNoDetail(config: ProductConfig, summary: byte)
    ensures (forall device: Device :: Summary(device) == summary ==> EmptyOnFailure(config, device))
            <==> !AsksForDetail(summary)
  {
    hide EmptyOnFailure, DetailFails, Summary, HasFlag, CATEGORIES;
    if AsksForDetail(summary) {
      var k :| 0 <= k < |CATEGORIES| && HasFlag(summary, CATEGORIES[k].flag);
      SilentFails(summary, k);
      EmptyOnFailureIff(config, Silent(summary));
    }
    forall device: Device | Summary(device) == summary && !AsksForDetail(summary)
      ensures EmptyOnFailure(config, device)
    {
      forall k | 0 <= k < |CATEGORIES|
        ensures !DetailFails(device, k)
      {
        if DetailFails(device, k) { DetailNeedsSummary(device, k); }
      }
      EmptyOnFailureIff(config, device);
    }
  }

  /** A device that reports a version mismatch and then fails to say which: the result is
      the mismatch without its details, and not empty. */
  lemma FailedDetailExample(config: ProductConfig)
    ensures var device := Silent(0x80);
            && device([], SUMMARY).Some? && device([SUMMARY], VERSION.command).None? && VERSION.command in Asked(device)
            && Info(config, device) == NO_ERRORS.(summary := 0x80) != NO_ERRORS
  {
    var device := Silent(0x80);
    CategoryOrder();
    OnlyFlaggedAreAsked(device, 0);
    SilentSummary(0x80);
    hide CATEGORIES, Silent, Summary, Detail;
    forall k | 0 <= k < |CATEGORIES|
      ensures Detail(device, 0x80, k).None?
    {
      SilentDetail(0x80, k);
    }
  }

  lemma SilentSummary(summary: byte)
    ensures Summary(Silent(summary)) == summary
  {
  }

  lemma SilentDetail(summary: byte, k: nat)
    requires k < |CATEGORIES|
    ensures Detail(Silent(summary), summary, k).None?
  {
    QueriesAreFlagged(summary, k);
    hide HasFlag, Queries, CATEGORIES;
  }

  /** The result with the field of category `k` empty. */
  function Without(info: SelfTestErrorInfo, k: nat): SelfTestErrorInfo {
    match k
    case 0 => info.(version := 0)
    case 1 => info.(positionSensor := [])
    case 2 => info.(tactileSensor := [])
    case 3 => info.(temperature := 0)
    case 4 => info.(fan := 0)
    case 5 => info.(zeroing := [])
    case 6 => info.(motor := [])
    case _ => info
  }

  /** A failed detail empties its own field and no other, whatever the other details say. */
  lemma FailedDetailEmptiesItsField(config: ProductConfig, device: Device, whole: Device, k: nat)
    requires k < |CATEGORIES| && DetailFails(device, k)
    requires Summary(whole) == Summary(device)
    requires forall j :: 0 <= j < |CATEGORIES| && j != k ==> Detail(device, Summary(device), j) == Detail(whole, Summary(whole), j)
    ensures Info(config, device) == Without(Info(config, whole), k)
  {
    DetailNeedsSummary(device, k);
    CategoryOrder();
    NoAnswer(config);
    assert Detail(device, Summary(device), k) == None;
    hide CATEGORIES, Summary, Detail, DetailFails, AsksForDetail, FirstCode, Motors;
    var summary := Summary(device);
    if k == 0 {
    } else if k == 1 {
    } else if k == 2 {
    } else if k == 3 {
    } else {
    }
  }

  lemma NoAnswer(config: ProductConfig)
    ensures FirstCode(None) == 0 && Motors(config, None) == []
  {
  }

  // ---- One transaction over Modbus registers ----

  /** One look at the command register: what was read, and whether time was up after it. */
  datatype Poll = Poll(bytes: seq<byte>, expired: bool)

  datatype RegisterTransaction = RegisterTransaction(written: bool, polls: seq<Poll>, payload: seq<byte>)

  function ParseState(bytes: seq<byte>): byte {
    if |bytes| < 2 then STATE_IDLE else bytes[1]
  }

  predicate IsSettled(state: byte) {
    state == STATE_SUCCESS || state == STATE_FAILED
  }

  /** Whether the device settles before time is up; it is up when no poll is left. */
  predicate Settles(polls: seq<Poll>) {
    polls != [] && (IsSettled(ParseState(polls[0].bytes)) || (!polls[0].expired && Settles(polls[1..])))
  }

  function RegisterOutcome(t: RegisterTransaction): Option<Codes> {
    if t.written && Settles(t.polls) && |t.payload| >= 14 then Some(t.payload[..CODE_COUNT]) else None
  }

  predicate SettledPoll(polls: seq<Poll>, k: nat) {
    k < |polls| && ReadsSettled(polls[k].bytes) && forall j :: 0 <= j < k ==> !polls[j].expired
  }

  /** The second byte says that the test has passed or failed. */
  predicate ReadsSettled(bytes: seq<byte>) {
    |bytes| >= 2 && (bytes[1] == 2 || bytes[1] == 3)
  }

  lemma SettledReadIs(bytes: seq<byte>)
    ensures IsSettled(ParseState(bytes)) <==> ReadsSettled(bytes)
  {
  }

  lemma SettledStateIs(state: byte)
    ensures IsSettled(state) <==> state == 2 || state == 3
  {
  }

  /** A failed read counts as idle: only time ends the wait. */
  lemma {:induction false} SettlesIff(polls: seq<Poll>)
    ensures Settles(polls) <==> exists k: nat :: SettledPoll(polls, k)
  {
    hide IsSettled, ParseState, ReadsSettled;
    if polls != [] {
      SettlesIff(polls[1..]);
      SettledReadIs(polls[0].bytes);
      if IsSettled(ParseState(polls[0].bytes)) {
        assert SettledPoll(polls, 0);
      } else if Settles(polls) {
        var k: nat :| SettledPoll(polls[1..], k);
        assert forall j :: 1 <= j <= k ==> polls[j] == polls[1..][j - 1];
        assert SettledPoll(polls, k + 1);
      }
      forall k: nat | SettledPoll(polls, k)
        ensures Settles(polls)
      {
        if k > 0 {
          assert forall j :: 0 <= j < k - 1 ==> polls[1..][j] == polls[j + 1];
          assert SettledPoll(polls[1..], k - 1);
        }
      }
    }
  }

  /** What a transaction gives: thirteen codes as they stand at the beginning of a payload of at
      least fourteen bytes, iff the command was written and the device settled in time. */
  lemma RegisterOutcomeIs(t: RegisterTransaction)
    ensures RegisterOutcome(t).Some? <==> t.written && |t.payload| >= 14 && exists k: nat :: SettledPoll(t.polls, k)
    ensures RegisterOutcome(t).Some? ==> forall i :: 0 <= i < 13 ==> RegisterOutcome(t).value[i] == t.payload[i]
  {
    hide Settles, SettledPoll;
    SettlesIff(t.polls);
  }

  // ---- One transaction over EtherCAT objects ----

  datatype SdoTransaction = SdoTransaction(written: bool, states: seq<Option<byte>>, codes: Option<Codes>)

  const POLL_ATTEMPTS: nat := 100

  predicate SdoSettles(states: seq<Option<byte>>, attempts: nat) {
    attempts > 0 && states != [] && states[0].Some? &&
    (IsSettled(states[0].value) || SdoSettles(states[1..], attempts - 1))
  }

  function SdoOutcome(t: SdoTransaction): Option<Codes> {
    if t.written && SdoSettles(t.states, POLL_ATTEMPTS) then t.codes else None
  }

  predicate SettledState(states: seq<Option<byte>>, attempts: nat, k: nat) {
    k < attempts && k < |states| && (forall j :: 0 <= j <= k ==> states[j].Some?) && (states[k].value == 2 || states[k].value == 3)
  }

  /** A failed read ends the wait, and so does the hundredth attempt. */
  lemma {:induction false} SdoSettlesIff(states: seq<Option<byte>>, attempts: nat)
    ensures SdoSettles(states, attempts) <==> exists k: nat :: SettledState(states, attempts, k)
    decreases attempts
  {
    hide IsSettled;
    if attempts > 0 && states != [] && states[0].Some? {
      SdoSettlesIff(states[1..], attempts - 1);
      SettledStateIs(states[0].value);
      if IsSettled(states[0].value) {
        assert SettledState(states, attempts, 0);
      } else if SdoSettles(states, attempts) {
        var k: nat :| SettledState(states[1..], attempts - 1, k);
        assert forall j :: 1 <= j <= k + 1 ==> states[j] == states[1..][j - 1];
        assert SettledState(states, attempts, k + 1);
      }
      forall k: nat | SettledState(states, attempts, k)
        ensures SdoSettles(states, attempts)
      {
        if k > 0 {
          assert forall j :: 0 <= j <= k - 1 ==> states[1..][j] == states[j + 1];
          assert SettledState(states[1..], attempts - 1, k - 1);
        }
      }
    }
  }

  /** Over objects: the codes that were read, iff the command was written and a settled state came
      within a hundred reads. */
  lemma SdoOutcomeIs(t: SdoTransaction)
    ensures SdoOutcome(t) == if t.written && exists k: nat :: SettledState(t.states, 100, k) then t.codes else None
  {
    hide SdoSettles, SettledState;
    SdoSettlesIff(t.states, 100);
  }

  // ---- The motor lists, as both implementations build them ----

  method MotorIndexToJoint(config: ProductConfig, motorIndex: nat) returns (id: JointId)
    ensures id == JointOf(config, motorIndex)
  {
    hide Commandable;
    var valid, limits := config.validJoints, config.jointLimits;
    var slot := 0;
    CommandableWhole(valid, limits);
    for i := 0 to |valid|
      invariant slot == |Commandable(valid[..i], limits)| <= motorIndex
    {
      CommandableStep(valid, limits, i);
      if valid[i] !in limits { continue; }
      if slot == motorIndex {
        return valid[i];
      }
      slot := slot + 1;
    }
    return NUM_JOINTS;
  }

  lemma CommandableWhole(joints: seq<JointId>, limits: map<JointId, Limits>)
    ensures Commandable(joints[..0], limits) == [] && joints[..|joints|] == joints
  {
  }

  lemma CommandableStep(joints: seq<JointId>, limits: map<JointId, Limits>, i: nat)
    requires i < |joints|
    ensures var before := Commandable(joints[..i], limits);
            && Commandable(joints[..i + 1], limits) == (if joints[i] in limits then before + [joints[i]] else before)
            && Commandable(joints[..i + 1], limits) <= Commandable(joints, limits)
  {
    assert joints[..i + 1][..i] == joints[..i];
    CommandablePrefix(joints, limits, i + 1);
  }

  lemma {:induction false} CommandablePrefix(joints: seq<JointId>, limits: map<JointId, Limits>, i: nat)
    requires i <= |joints|
    ensures Commandable(joints[..i], limits) <= Commandable(joints, limits)
  {
    if i < |joints| {
      CommandablePrefix(joints[..|joints| - 1], limits, i);
      assert joints[..|joints| - 1][..i] == joints[..i];
    } else {
      assert joints[..i] == joints;
    }
  }

  method CollectMotorErrors(config: ProductConfig, codes: Codes) returns (errors: seq<MotorError>)
    ensures errors == Errors(config, codes, CODE_COUNT)
  {
    errors := [];
    for i := 0 to CODE_COUNT
      invariant errors == Errors(config, codes, i)
    {
      if codes[i] == 0 { continue; }
      var id := MotorIndexToJoint(config, i);
      errors := errors + [MotorError(i, id, codes[i])];
    }
  }

  // ---- The workflow over registers ----

  class SelfTestRegisterIO {
    const device: (seq<byte>, byte) -> RegisterTransaction
    var asked: seq<byte>

    constructor (device: (seq<byte>, byte) -> RegisterTransaction)
      ensures this.device == device && asked == []
    {
      this.device, asked := device, [];
    }

    method PollUntilSettled(polls: seq<Poll>) returns (settled: bool)
      ensures settled == Settles(polls)
    {
      var i := 0;
      while i < |polls|
        invariant i <= |polls| && Settles(polls) == Settles(polls[i..])
      {
        if IsSettled(ParseState(polls[i].bytes)) {
          return true;
        }
        if polls[i].expired {
          return false;
        }
        i := i + 1;
      }
      return false;
    }

    method ReadDiagnosticErrorCodes(command: byte) returns (ok: bool, codes: Codes)
      modifies this
      ensures asked == old(asked) + [command]
      ensures var outcome := RegisterOutcome(device(old(asked), command));
              ok == outcome.Some? && codes == if ok then outcome.value else NO_CODES
    {
      codes := NO_CODES;
      var t := device(asked, command);
      asked := asked + [command];
      if !t.written {
        return false, codes;
      }
      ok := PollUntilSettled(t.polls);
      if !ok || |t.payload| < 14 {
        return false, codes;
      }
      return true, t.payload[..CODE_COUNT];
    }

    /** A category with one code: asked if flagged, zero if not or if the query fails. */
    method QueryCode(summary: byte, ghost k: nat, category: Category) returns (code: byte)
      requires k < |CATEGORIES| && CATEGORIES[k] == category && asked == Queries(summary, k)
      modifies this
      ensures asked == Queries(summary, k + 1)
      ensures code == FirstCode(Detail(RegisterDevice(device), summary, k))
    {
      hide HasFlag, RegisterOutcome;
      code := 0;
      if HasFlag(summary, category.flag) {
        var ok, codes := ReadDiagnosticErrorCodes(category.command);
        if ok {
          code := codes[0];
        }
      }
    }

    /** A category with codes by motor: no errors if not flagged or if the query fails. */
    method QueryMotors(config: ProductConfig, summary: byte, ghost k: nat,
                       category: Category) returns (errors: seq<MotorError>)
      requires k < |CATEGORIES| && CATEGORIES[k] == category && asked == Queries(summary, k)
      modifies this
      ensures asked == Queries(summary, k + 1)
      ensures errors == Motors(config, Detail(RegisterDevice(device), summary, k))
    {
      hide HasFlag, RegisterOutcome, Errors;
      errors := [];
      if HasFlag(summary, category.flag) {
        var ok, codes := ReadDiagnosticErrorCodes(category.command);
        if ok {
          errors := CollectMotorErrors(config, codes);
        }
      }
    }

    method BuildSelfTestErrorInfo(config: ProductConfig) returns (info: SelfTestErrorInfo)
      requires asked == []
      modifies this
      ensures info == Info(config, RegisterDevice(device)) && asked == Asked(RegisterDevice(device))
    {
      hide Motors, Detail, RegisterOutcome, Queries, HasFlag;
      CategoryOrder();
      hide CATEGORIES;
      info := NO_ERRORS;
      QueriesBegin();
      var ok, codes := ReadDiagnosticErrorCodes(SUMMARY);
      if !ok {
        return;
      }
      info := info.(summary := codes[0]);
      if info.summary == 0 {
        return;
      }
      var summary := info.summary;
      var version := QueryCode(summary, 0, VERSION);
      var positionSensor := QueryMotors(config, summary, 1, POSITION_SENSOR);
      var tactileSensor := QueryMotors(config, summary, 2, TACTILE_SENSOR);
      var temperature := QueryCode(summary, 3, TEMPERATURE);
      var fan := QueryCode(summary, 4, FAN);
      var zeroing := QueryMotors(config, summary, 5, ZEROING);
      var motor := QueryMotors(config, summary, 6, MOTOR);
      info := SelfTestErrorInfo(summary, version, positionSensor, tactileSensor, temperature, fan, zeroing, motor);
    }
  }

  lemma CategoryOrder()
    ensures |CATEGORIES| == 7
    ensures CATEGORIES[0] == VERSION && CATEGORIES[1] == POSITION_SENSOR && CATEGORIES[2] == TACTILE_SENSOR
    ensures CATEGORIES[3] == TEMPERATURE && CATEGORIES[4] == FAN && CATEGORIES[5] == ZEROING && CATEGORIES[6] == MOTOR
  {
  }

  lemma QueriesBegin()
    ensures forall summary :: Queries(summary, 0) == [SUMMARY]
  {
  }

  const NO_CODES: Codes := [0, 0, 0, 0, 0, 0, 0, 0, 0, 0, 0, 0, 0]

  function RegisterDevice(device: (seq<byte>, byte) -> RegisterTransaction): Device {
    (asked, command) => RegisterOutcome(device(asked, command))
  }

  // ---- The same query over EtherCAT ----

  function SdoDevice(device: (seq<byte>, byte) -> SdoTransaction): Device {
    (asked, command) => SdoOutcome(device(asked, command))
  }

  class EtherCATComm {
    const config: ProductConfig
    const device: (seq<byte>, byte) -> SdoTransaction
    var asked: seq<byte>

    constructor (config: ProductConfig, device: (seq<byte>, byte) -> SdoTransaction)
      ensures this.config == config && this.device == device && asked == []
    {
      this.config, this.device, asked := config, device, [];
    }

    method PollState(states: seq<Option<byte>>) returns (settled: bool)
      ensures settled == SdoSettles(states, POLL_ATTEMPTS)
    {
      var attempts := POLL_ATTEMPTS;
      var i := 0;
      while attempts > 0
        invariant i <= |states| && 0 <= attempts
        invariant SdoSettles(states, POLL_ATTEMPTS) == SdoSettles(states[i..], attempts)
      {
        if i == |states| || states[i].None? {
          return false;
        }
        if IsSettled(states[i].value) {
          return true;
        }
        i, attempts := i + 1, attempts - 1;
      }
      return false;
    }

    method ReadDiagnosticErrorCodes(command: byte) returns (ok: bool, codes: Codes)
      modifies this
      ensures asked == old(asked) + [command]
      ensures var outcome := SdoOutcome(device(old(asked), command));
              ok == outcome.Some? && codes == if ok then outcome.value else NO_CODES
    {
      codes := NO_CODES;
      var t := device(asked, command);
      asked := asked + [command];
      if !t.written {
        return false, codes;
      }
      ok := PollState(t.states);
      if !ok || t.codes.None? {
        return false, codes;
      }
      return true, t.codes.value;
    }

    /** A flag, then GetVersionCheckErrorCode or its like: zero if the query fails. */
    method GetErrorCode(summary: byte, ghost k: nat, category: Category) returns (code: byte)
      requires k < |CATEGORIES| && CATEGORIES[k] == category && asked == Queries(summary, k)
      modifies this
      ensures asked == Queries(summary, k + 1)
      ensures code == FirstCode(Detail(SdoDevice(device), summary, k))
    {
      hide HasFlag, SdoOutcome;
      code := 0;
      if HasFlag(summary, category.flag) {
        var ok, codes := ReadDiagnosticErrorCodes(category.command);
        code := if ok then codes[0] else 0;
      }
    }

    /** A flag, then GetMotorErrorCodes or its like: the codes are all zero, and listed all
        the same, if the query fails. */
    method GetMotorErrors(summary: byte, ghost k: nat, category: Category) returns (errors: seq<MotorError>)
      requires k < |CATEGORIES| && CATEGORIES[k] == category && asked == Queries(summary, k)
      modifies this
      ensures asked == Queries(summary, k + 1)
      ensures errors == Motors(config, Detail(SdoDevice(device), summary, k))
    {
      hide HasFlag, SdoOutcome, Errors;
      errors := [];
      if HasFlag(summary, category.flag) {
        var _, codes := ReadDiagnosticErrorCodes(category.command);
        ZeroCodesListNothing(config, NO_CODES, CODE_COUNT);
        errors := CollectMotorErrors(config, codes);
      }
    }

    method GetSelfTestErrorInfo() returns (info: SelfTestErrorInfo)
      requires asked == []
      modifies this
      ensures info == Info(config, SdoDevice(device)) && asked == Asked(SdoDevice(device))
    {
      hide Motors, Detail, SdoOutcome, Queries, HasFlag;
      CategoryOrder();
      hide CATEGORIES;
      info := NO_ERRORS;
      QueriesBegin();
      var ok, codes := ReadDiagnosticErrorCodes(SUMMARY);
      info := info.(summary := if ok then codes[0] else 0);
      if info.summary == 0 {
        return;
      }
      var summary := info.summary;
      var version := GetErrorCode(summary, 0, VERSION);
      var positionSensor := GetMotorErrors(summary, 1, POSITION_SENSOR);
      var tactileSensor := GetMotorErrors(summary, 2, TACTILE_SENSOR);
      var temperature := GetErrorCode(summary, 3, TEMPERATURE);
      var fan := GetErrorCode(summary, 4, FAN);
      var zeroing := GetMotorErrors(summary, 5, ZEROING);
      var motor := GetMotorErrors(summary, 6, MOTOR);
      info := SelfTestErrorInfo(summary, version, positionSensor, tactileSensor, temperature, fan, zeroing, motor);
    }
  }

  // ---- The two agree ----

  /** Run on any two devices whose transactions end alike, the workflow over registers and
      the EtherCAT query return the same result and have asked the same commands. */
  method RunBoth(config: ProductConfig, registers: (seq<byte>, byte) -> RegisterTransaction,
                 objects: (seq<byte>, byte) -> SdoTransaction)
    returns (overRegisters: SelfTestErrorInfo, overObjects: SelfTestErrorInfo, asked: seq<byte>, askedObjects: seq<byte>)
    requires forall asked, command :: RegisterOutcome(registers(asked, command)) == SdoOutcome(objects(asked, command))
    ensures overRegisters == overObjects && asked == askedObjects
    ensures [SUMMARY] <= asked && overRegisters.summary == Summary(RegisterDevice(registers))
  {
    var io := new SelfTestRegisterIO(registers);
    overRegisters := io.BuildSelfTestErrorInfo(config);
    asked := io.asked;
    var ethercat := new EtherCATComm(config, objects);
    overObjects := ethercat.GetSelfTestErrorInfo();
    askedObjects := ethercat.asked;
    AlikeDevices(config, registers, objects);
    OnlyFlaggedAreAsked(RegisterDevice(registers), 0);
  }

  lemma AlikeDevices(config: ProductConfig, registers: (seq<byte>, byte) -> RegisterTransaction,
                     objects: (seq<byte>, byte) -> SdoTransaction)
    requires forall asked, command :: RegisterOutcome(registers(asked, command)) == SdoOutcome(objects(asked, command))
    ensures Info(config, RegisterDevice(registers)) == Info(config, SdoDevice(objects))
    ensures Asked(RegisterDevice(registers)) == Asked(SdoDevice(objects))
  {
    hide RegisterOutcome, SdoOutcome, Motors, Queries, CATEGORIES, HasFlag;
    var a, b := RegisterDevice(registers), SdoDevice(objects);
    assert forall asked, command :: a(asked, command) == b(asked, command);
    CategoryCount();
    forall summary, k: nat | k < |CATEGORIES|
      ensures Detail(a, summary, k) == Detail(b, summary, k)
    {
    }
  }

  lemma CategoryCount()
    ensures |CATEGORIES| == 7
  {
  }

  // ---- When transactions end alike ----

  /** A poll of the state that failed, or what it read; over registers, also whether time was up. */
  datatype Look = Look(state: Option<byte>, expired: bool)

  function AsPolls(looks: seq<Look>): (polls: seq<Poll>)
    ensures |polls| == |looks|
  {
    seq(|looks|, i requires 0 <= i < |looks| =>
      Poll(if looks[i].state.Some? then [0, looks[i].state.value] else [], looks[i].expired))
  }

  function AsStates(looks: seq<Look>): (states: seq<Option<byte>>)
    ensures |states| == |looks|
  {
    seq(|looks|, i requires 0 <= i < |looks| => looks[i].state)
  }

  predicate ShowsSettled(look: Look) {
    look.state.Some? && IsSettled(look.state.value)
  }

  /** The first look that shows a settled state, or their number if none does. */
  function FirstSettled(looks: seq<Look>): (f: nat)
    ensures f <= |looks|
    ensures forall k :: 0 <= k < f ==> !ShowsSettled(looks[k])
    ensures f < |looks| ==> ShowsSettled(looks[f])
  {
    if looks == [] || ShowsSettled(looks[0]) then 0 else 1 + FirstSettled(looks[1..])
  }

  predicate TimeRunsOut(looks: seq<Look>, f: nat)
    requires f <= |looks|
  {
    exists k :: 0 <= k < f && looks[k].expired
  }

  predicate ReadFails(looks: seq<Look>, f: nat)
    requires f <= |looks|
  {
    exists k :: 0 <= k < f && looks[k].state.None?
  }

  lemma PollsSettleIff(looks: seq<Look>)
    ensures Settles(AsPolls(looks)) <==> FirstSettled(looks) < |looks| && !TimeRunsOut(looks, FirstSettled(looks))
  {
    SettlesIff(AsPolls(looks));
    var f, polls := FirstSettled(looks), AsPolls(looks);
    forall k | 0 <= k < |looks|
      ensures ReadsSettled(polls[k].bytes) <==> ShowsSettled(looks[k])
    {
      if looks[k].state.Some? {
        SettledStateIs(looks[k].state.value);
      }
    }
    hide IsSettled, ReadsSettled;
    if f < |looks| && !TimeRunsOut(looks, f) {
      assert SettledPoll(polls, f);
    }
    forall k: nat | SettledPoll(polls, k)
      ensures f < |looks| && !TimeRunsOut(looks, f)
    {
      assert f <= k;
      assert forall j :: 0 <= j < f ==> polls[j].expired == looks[j].expired;
    }
  }

  lemma StatesSettleIff(looks: seq<Look>, attempts: nat)
    ensures SdoSettles(AsStates(looks), attempts) <==>
            FirstSettled(looks) < |looks| && FirstSettled(looks) < attempts && !ReadFails(looks, FirstSettled(looks))
  {
    SdoSettlesIff(AsStates(looks), attempts);
    var f, states := FirstSettled(looks), AsStates(looks);
    forall k | 0 <= k < |looks| && looks[k].state.Some?
      ensures IsSettled(looks[k].state.value) <==> looks[k].state.value == 2 || looks[k].state.value == 3
    {
      SettledStateIs(looks[k].state.value);
    }
    hide IsSettled;
    if f < |looks| && f < attempts && !ReadFails(looks, f) {
      assert SettledState(states, attempts, f);
    }
    forall k: nat | SettledState(states, attempts, k)
      ensures f < |looks| && f < attempts && !ReadFails(looks, f)
    {
      assert ShowsSettled(looks[k]);
      assert forall j :: 0 <= j < f ==> states[j] == looks[j].state;
    }
  }

  /** On the same looks at the same device the two poll loops end alike iff no look is
      settled, or what can stop either before the first settled one stops both: time for the
      one, a failed read or a hundred reads for the other. */
  lemma LoopsEndAlikeIff(looks: seq<Look>)
    ensures var f := FirstSettled(looks);
            (Settles(AsPolls(looks)) <==> SdoSettles(AsStates(looks), POLL_ATTEMPTS)) <==>
            (f == |looks| || (TimeRunsOut(looks, f) <==> f >= POLL_ATTEMPTS || ReadFails(looks, f)))
  {
    hide Settles, SdoSettles, FirstSettled, TimeRunsOut, ReadFails;
    PollsSettleIff(looks);
    StatesSettleIff(looks, POLL_ATTEMPTS);
  }

  /** One failed read is waited out by the workflow and fails the EtherCAT query. */
  lemma FailedReadExample(payload: seq<byte>)
    requires |payload| >= 14
    ensures var looks := [Look(None, false), Look(Some(STATE_SUCCESS), false)];
            && RegisterOutcome(RegisterTransaction(true, AsPolls(looks), payload)) == Some(payload[..CODE_COUNT])
            && SdoOutcome(SdoTransaction(true, AsStates(looks), Some(payload[..CODE_COUNT]))).None?
  {
    hide Settles, SdoSettles;
    var looks := [Look(None, false), Look(Some(STATE_SUCCESS), false)];
    PollsSettleIff(looks);
    StatesSettleIff(looks, POLL_ATTEMPTS);
    assert ShowsSettled(looks[1]) && !ShowsSettled(looks[0]);
    assert looks[0].state.None?;
  }
}
