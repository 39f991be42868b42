/** What the SDK knows about a product: its joints, their limits and their registers. */
module ProductConfiguration {
  import opened Bytes
  import opened HandTypes

  datatype TactileRegion = TactileRegion(id: string, sensorCount: int)

  datatype Limits = Limits(min: real, max: real)

  datatype ProductConfig = ProductConfig(
    productType: ProductType,
    model: string,
    name: string,
    validJoints: seq<JointId>,
    jointLimits: map<JointId, Limits>,
    hasTactile: bool,
    tactileRegions: seq<TactileRegion>,
    jointInputRegisters: map<JointId, u16>,
    jointControlRegisters: map<JointId, u16>,
    modeRegister: int,
    timerCount: int,
    timerValues: seq<u16>,
    deleteCount: int,
    deleteValues: seq<u16>)

  // ---- Validation ----

  predicate Distinct<T(==)>(s: seq<T>) {
    forall i, j :: 0 <= i < j < |s| ==> s[i] != s[j]
  }

  predicate JointsAreSound(config: ProductConfig) {
    && config.validJoints != [] && config.jointLimits != map[]
    && Distinct(config.validJoints) && NUM_JOINTS !in config.validJoints
    && (forall id :: id in config.jointLimits ==>
          id in config.validJoints && config.jointLimits[id].min <= config.jointLimits[id].max)
  }

  predicate IsValid(config: ProductConfig) {
    && config.name != "" && config.model != ""
    && JointsAreSound(config)
    && (config.hasTactile ==> config.tactileRegions != [])
    && (forall r :: r in config.tactileRegions ==> r.id != "" && r.sensorCount > 0)
    && config.timerCount >= 0 && config.deleteCount >= 0
    && (config.timerValues != [] ==> |config.timerValues| == config.timerCount)
    && (config.deleteValues != [] ==> |config.deleteValues| == config.deleteCount)
  }

  method ValidateProductConfig(config: ProductConfig) returns (valid: bool)
    ensures valid <==> IsValid(config)
  {
    valid := config.name != "" && config.model != "" && config.validJoints != [] && config.jointLimits != map[];

    var distinct, seen := CheckJoints(config.validJoints);
    var limitsOk := CheckLimits(config.jointLimits, seen);
    valid := valid && distinct && limitsOk;

    if config.hasTactile && config.tactileRegions == [] {
      valid := false;
    }
    var regionsOk := CheckRegions(config.tactileRegions);
    valid := valid && regionsOk;

    if config.timerCount < 0 || config.deleteCount < 0 {
      valid := false;
    }
    if config.timerValues != [] && |config.timerValues| != config.timerCount {
      valid := false;
    }
    if config.deleteValues != [] && |config.deleteValues| != config.deleteCount {
      valid := false;
    }
  }

  method CheckJoints(joints: seq<JointId>) returns (valid: bool, seen: set<JointId>)
    ensures valid <==> Distinct(joints) && NUM_JOINTS !in joints
    ensures forall id :: id in seen <==> id in joints && id != NUM_JOINTS
  {
    valid, seen := true, {};
    for i := 0 to |joints|
      invariant forall id :: id in seen <==> id in joints[..i] && id != NUM_JOINTS
      invariant valid <==> Distinct(joints[..i]) && NUM_JOINTS !in joints[..i]
    {
      assert joints[..i + 1] == joints[..i] + [joints[i]];
      DistinctOneMore(joints[..i], joints[i]);
      if joints[i] == NUM_JOINTS {
        valid := false;
        continue;
      }
      if joints[i] in seen {
        valid := false;
      }
      seen := seen + {joints[i]};
    }
    assert joints[..|joints|] == joints;
  }

  lemma DistinctOneMore<T>(s: seq<T>, x: T)
    ensures Distinct(s + [x]) <==> Distinct(s) && x !in s
  {
    var t := s + [x];
    assert t[|s|] == x && forall i :: 0 <= i < |s| ==> t[i] == s[i];
    if Distinct(t) {
      forall i, j | 0 <= i < j < |s|
        ensures s[i] != s[j]
      {
        assert t[i] != t[j];
      }
      forall i | 0 <= i < |s|
        ensures s[i] != x
      {
        assert t[i] != t[|s|];
      }
    }
  }

  method CheckLimits(limits: map<JointId, Limits>, seen: set<JointId>) returns (valid: bool)
    ensures valid <==> forall id :: id in limits ==> id in seen && limits[id].min <= limits[id].max
  {
    valid := true;
    var left := limits.Keys;
    while left != {}
      invariant left <= limits.Keys
      invariant valid <==> forall id :: id in limits && id !in left ==> id in seen && limits[id].min <= limits[id].max
      decreases |left|
    {
      var id :| id in left;
      if id !in seen || limits[id].min > limits[id].max {
        valid := false;
      }
      left := left - {id};
    }
  }

  method CheckRegions(regions: seq<TactileRegion>) returns (valid: bool)
    ensures valid <==> forall r :: r in regions ==> r.id != "" && r.sensorCount > 0
  {
    valid := true;
    for i := 0 to |regions|
      invariant valid <==> forall k :: 0 <= k < i ==> regions[k].id != "" && regions[k].sensorCount > 0
    {
      if regions[i].id == "" || regions[i].sensorCount <= 0 {
        valid := false;
      }
    }
  }

  // ---- Loading joints ----

  /** One entry of the "joints" list: its id, NUM_JOINTS if unknown, and the two numbers if both are there. */
  datatype JointItem = JointItem(id: JointId, bounds: Option<Limits>)

  function Ordered(l: Limits): Limits {
    if l.min > l.max then Limits(l.max, l.min) else l
  }

  function KnownIds(items: seq<JointItem>): (ids: seq<JointId>)
    ensures NUM_JOINTS !in ids
  {
    if items == [] then []
    else KnownIds(items[..|items| - 1]) +
         (if items[|items| - 1].id == NUM_JOINTS then [] else [items[|items| - 1].id])
  }

  /** Later limits of the same joint replace earlier ones. */
  function LoadedLimits(items: seq<JointItem>): map<JointId, Limits> {
    if items == [] then map[]
    else
      var before, last := LoadedLimits(items[..|items| - 1]), items[|items| - 1];
      if last.id == NUM_JOINTS || last.bounds.None? then before
      else before[last.id := Ordered(last.bounds.value)]
  }

  method LoadJointConfig(items: seq<JointItem>, config: ProductConfig) returns (loaded: ProductConfig)
    requires config.validJoints == [] && config.jointLimits == map[]
    ensures loaded == config.(validJoints := KnownIds(items), jointLimits := LoadedLimits(items))
  {
    loaded := config;
    for i := 0 to |items|
      invariant loaded == config.(validJoints := KnownIds(items[..i]), jointLimits := LoadedLimits(items[..i]))
    {
      var item := items[i];
      assert items[..i + 1][..i] == items[..i];
      if item.id == NUM_JOINTS { continue; }
      loaded := loaded.(validJoints := loaded.validJoints + [item.id]);
      if item.bounds.Some? {
        var bounds := item.bounds.value;
        if bounds.min > bounds.max {
          bounds := Limits(bounds.max, bounds.min);
        }
        loaded := loaded.(jointLimits := loaded.jointLimits[item.id := bounds]);
      }
    }
    assert items[..|items|] == items;
  }

  /** Which joints are listed: the known ones, item by item, in the order of the items. */
  lemma {:induction false} KnownIdsAre(items: seq<JointItem>, more: seq<JointItem>, item: JointItem)
    ensures KnownIds(items + more) == KnownIds(items) + KnownIds(more)
    ensures KnownIds([item]) == (if item.id == NUM_JOINTS then [] else [item.id])
  {
    assert KnownIds([]) == [] && [item][..0] == [];
    if more == [] {
      assert items + more == items;
    } else {
      var n := |more| - 1;
      assert (items + more)[..|items| + n] == items + more[..n];
      KnownIdsAre(items, more[..n], item);
    }
  }

  /** The item that decides about a joint's limits: the last of its items with two numbers. */
  predicate Decides(items: seq<JointItem>, id: JointId, k: nat)
    requires k < |items|
  {
    && items[k].id == id && items[k].bounds.Some?
    && forall j :: k < j < |items| ==> items[j].id != id || items[j].bounds.None?
  }

  /** A joint's limits are those two numbers, the lesser first. */
  lemma {:induction false} LoadedLimitsAre(items: seq<JointItem>, id: JointId)
    requires id != NUM_JOINTS
    ensures id in LoadedLimits(items) <==> exists k :: 0 <= k < |items| && Decides(items, id, k)
    ensures forall k :: 0 <= k < |items| && Decides(items, id, k) ==>
      var loaded, given := LoadedLimits(items)[id], items[k].bounds.value;
      loaded.min <= loaded.max && {loaded.min, loaded.max} == {given.min, given.max}
  {
    if items != [] {
      var n := |items| - 1;
      var before := items[..n];
      LoadedLimitsAre(before, id);
      if items[n].id == id && items[n].bounds.Some? {
        assert Decides(items, id, n);
      } else {
        forall k | 0 <= k < n
          ensures Decides(items, id, k) <==> Decides(before, id, k)
        {
          assert forall j :: 0 <= j < n ==> before[j] == items[j];
        }
      }
    }
  }

  /** Of everything validation asks of joints, loading can only miss three things: a joint
      listed twice, no joint at all, or no joint with limits. */
  lemma LoadedJointsAreSoundIff(items: seq<JointItem>, config: ProductConfig)
    requires config.validJoints == KnownIds(items) && config.jointLimits == LoadedLimits(items)
    ensures JointsAreSound(config) <==>
            Distinct(KnownIds(items)) && exists item :: item in items && item.id != NUM_JOINTS && item.bounds.Some?
  {
    LoadedLimitsAreListed(items);
  }

  lemma {:induction false} LoadedLimitsAreListed(items: seq<JointItem>)
    ensures forall id :: id in LoadedLimits(items) ==>
      id in KnownIds(items) && LoadedLimits(items)[id].min <= LoadedLimits(items)[id].max
    ensures LoadedLimits(items) != map[] <==>
            exists item :: item in items && item.id != NUM_JOINTS && item.bounds.Some?
  {
    if items != [] {
      var before, last := items[..|items| - 1], items[|items| - 1];
      LoadedLimitsAreListed(before);
      assert items == before + [last];
      if last.id != NUM_JOINTS && last.bounds.Some? {
        assert last.id in LoadedLimits(items);
      }
    }
  }

  // ---- Loading a product ----

  function KeptRegions(items: seq<TactileRegion>): (regions: seq<TactileRegion>)
    ensures forall r :: r in regions <==> r in items && r.id != "" && r.sensorCount > 0
  {
    if items == [] then []
    else
      var before, last := KeptRegions(items[..|items| - 1]), items[|items| - 1];
      assert items == items[..|items| - 1] + [last];
      if last.id != "" && last.sensorCount > 0 then before + [last] else before
  }

  /** Regions with a name and sensors are kept, one after the other. */
  lemma KeptRegionsAre(items: seq<TactileRegion>, item: TactileRegion)
    ensures KeptRegions([]) == []
    ensures KeptRegions(items + [item]) == KeptRegions(items) + (if item.id != "" && item.sensorCount > 0 then [item] else [])
  {
    assert (items + [item])[..|items|] == items;
  }

  method LoadTactileConfig(items: seq<TactileRegion>, config: ProductConfig) returns (loaded: ProductConfig)
    ensures loaded == config.(tactileRegions := config.tactileRegions + KeptRegions(items))
  {
    hide KeptRegions;
    loaded := config;
    assert KeptRegions(items[..0]) == [] by {
      KeptRegionsAre(items[..0], TactileRegion("", 0));
    }
    for i := 0 to |items|
      invariant loaded.tactileRegions == config.tactileRegions + KeptRegions(items[..i])
      invariant loaded.(tactileRegions := config.tactileRegions) == config
    {
      KeptRegionsAre(items[..i], items[i]);
      assert items[..i + 1] == items[..i] + [items[i]];
      if items[i].id != "" && items[i].sensorCount > 0 {
        loaded := loaded.(tactileRegions := loaded.tactileRegions + [items[i]]);
      }
    }
    assert items[..|items|] == items;
  }

  const EMPTY: ProductConfig :=
    ProductConfig(AUTO, "", "", [], map[], false, [], map[], map[], NO_REGISTER, 0, [], 0, [])

  /** What a configuration text is loaded to: names, the product's profile, joints, tactile regions. */
  method ParseProductConfigJson(product: ProductType, model: string, name: string, joints: seq<JointItem>,
                                hasTactile: bool, regions: seq<TactileRegion>) returns (config: ProductConfig)
    ensures config == Loaded(product, model, name, joints, hasTactile, regions)
  {
    hide HOLDING_REGISTERS, LITE1_CONTROL_REGISTERS, LITE1_INPUT_REGISTERS, GHand5Inputs, KnownIds, LoadedLimits, KeptRegions;
    config := EMPTY;
    config := config.(model := model);
    config := config.(name := name);
    config := ApplyProtocolDefaults(product, config);
    config := LoadJointConfig(joints, config);
    config := config.(hasTactile := hasTactile);
    config := LoadTactileConfig(regions, config);
  }

  function Loaded(product: ProductType, model: string, name: string, joints: seq<JointItem>, hasTactile: bool,
                  regions: seq<TactileRegion>): ProductConfig {
    ApplyProtocolDefaults(product, EMPTY.(model := model, name := name))
      .(validJoints := KnownIds(joints), jointLimits := LoadedLimits(joints),
        hasTactile := hasTactile, tactileRegions := KeptRegions(regions))
  }

  /** A loaded product passes validation iff it has a model and a name, lists no joint twice and
      some joint with two numbers, and, if it has tactile sensors, some region with a name and
      sensors; nothing else can be wrong with it. */
  lemma LoadedIsValidIff(product: ProductType, model: string, name: string, joints: seq<JointItem>, hasTactile: bool,
                         regions: seq<TactileRegion>)
    ensures IsValid(Loaded(product, model, name, joints, hasTactile, regions)) <==>
            && model != "" && name != "" && Distinct(KnownIds(joints))
            && (exists item :: item in joints && item.id != NUM_JOINTS && item.bounds.Some?)
            && (hasTactile ==> exists r :: r in regions && r.id != "" && r.sensorCount > 0)
  {
    hide HOLDING_REGISTERS, LITE1_CONTROL_REGISTERS, LITE1_INPUT_REGISTERS, GHand5Inputs;
    var config := Loaded(product, model, name, joints, hasTactile, regions);
    ProfileKeepsTheRest(product, EMPTY.(model := model, name := name));
    LoadedJointsAreSoundIff(joints, config);
    hide JointsAreSound, KnownIds, LoadedLimits, Distinct;
    if KeptRegions(regions) != [] {
      assert KeptRegions(regions)[0] in KeptRegions(regions);
    }
  }

  /** A configuration of any other kind is rejected for any one thing that is wrong with it. */
  lemma OneFaultIsEnough(config: ProductConfig)
    ensures config.name == "" || config.model == "" || !JointsAreSound(config) ==> !IsValid(config)
    ensures config.hasTactile && config.tactileRegions == [] ==> !IsValid(config)
    ensures (exists r :: r in config.tactileRegions && (r.id == "" || r.sensorCount <= 0)) ==> !IsValid(config)
    ensures config.timerCount < 0 || config.deleteCount < 0 ==> !IsValid(config)
    ensures config.timerValues != [] && |config.timerValues| != config.timerCount ==> !IsValid(config)
    ensures config.deleteValues != [] && |config.deleteValues| != config.deleteCount ==> !IsValid(config)
  {
  }

  /** The joints that can be commanded, in the order they are listed. */
  function ControlledJoints(config: ProductConfig): (ids: seq<JointId>)
    ensures forall id :: id in ids <==> id in config.validJoints && id in config.jointLimits
    ensures Distinct(config.validJoints) ==> Distinct(ids)
  {
    Commandable(config.validJoints, config.jointLimits)
  }

  function Commandable(joints: seq<JointId>, limits: map<JointId, Limits>): (ids: seq<JointId>)
    ensures forall id :: id in ids <==> id in joints && id in limits
    ensures Distinct(joints) ==> Distinct(ids)
  {
    if joints == [] then []
    else
      var before := Commandable(joints[..|joints| - 1], limits);
      if joints[|joints| - 1] in limits then before + [joints[|joints| - 1]] else before
  }

  /** They keep the order of the list. */
  lemma {:induction false} CommandableInOrder(joints: seq<JointId>, limits: map<JointId, Limits>, i: nat, j: nat)
    returns (p: nat, q: nat)
    requires i < j < |Commandable(joints, limits)|
    ensures p < q < |joints| && joints[p] == Commandable(joints, limits)[i] && joints[q] == Commandable(joints, limits)[j]
  {
    var n := |joints| - 1;
    var before := Commandable(joints[..n], limits);
    if j < |before| {
      p, q := CommandableInOrder(joints[..n], limits, i, j);
    } else {
      assert before[i] in before;
      p :| 0 <= p < n && joints[p] == before[i];
      q := n;
    }
  }

  /** In a sound configuration the controlled joints are the joints with limits, each once. */
  lemma ControlledJointsCount(config: ProductConfig)
    requires JointsAreSound(config)
    ensures |ControlledJoints(config)| == |config.jointLimits|
  {
    var ids := ControlledJoints(config);
    DistinctCount(ids);
    assert Elements(ids) == config.jointLimits.Keys;
    assert |config.jointLimits.Keys| == |config.jointLimits|;
  }

  function Elements<T(==,!new)>(s: seq<T>): (e: set<T>)
    ensures forall x :: x in e <==> x in s
  {
    set x | x in s
  }

  lemma {:induction false} DistinctCount<T(!new)>(s: seq<T>)
    requires Distinct(s)
    ensures |Elements(s)| == |s|
  {
    if s != [] {
      var before, last := s[..|s| - 1], s[|s| - 1];
      DistinctCount(before);
      assert Elements(s) == Elements(before) + {last};
    }
  }

  // ---- Register profiles ----

  /** The control registers used when a configuration names none. */
  const HOLDING_REGISTERS: map<JointId, u16> := map[
    THUMB_MCP := 0x0011, THUMB_TMC_FE := 0x0013, THUMB_TMC_AA := 0x0015, THUMB_TMC_PS := 0x0017,
    FF_PIP := 0x0019, FF_MCP := 0x001B, FF_MCP_AA := 0x001D, MF_PIP := 0x001F, MF_MCP := 0x0021,
    RF_PIP := 0x0023, RF_MCP := 0x0025, LF_PIP := 0x0027, LF_MCP := 0x0029]

  const LITE1_CONTROL_REGISTERS: map<JointId, u16> := map[
    THUMB_MCP := 0x0010, THUMB_TMC_FE := 0x0013, THUMB_TMC_AA := 0x0016,
    FF_PIP := 0x0019, FF_MCP := 0x001C, MF_PIP := 0x001F, MF_MCP := 0x0022,
    RF_PIP := 0x0025, RF_MCP := 0x0028, LF_PIP := 0x002B, LF_MCP := 0x002E]

  const LITE1_INPUT_REGISTERS: map<JointId, u16> := map[
    THUMB_MCP := 0x1023, THUMB_TMC_FE := 0x1026, THUMB_TMC_AA := 0x1029,
    FF_PIP := 0x102C, FF_MCP := 0x102F, MF_PIP := 0x1032, MF_MCP := 0x1035,
    RF_PIP := 0x1038, RF_MCP := 0x103B, LF_PIP := 0x103E, LF_MCP := 0x1041]

  const MODE_REGISTER: int := 0x0010
  const NO_REGISTER: int := -1

  function GHand5Inputs(): map<JointId, u16> {
    map id: JointId | id < NUM_JOINTS :: (0x1023 + id * 3) as u16
  }

  lemma NextOfLite1(a: JointId, b: JointId) returns (next: JointId)
    requires a in LITE1_INPUT_REGISTERS && b in LITE1_INPUT_REGISTERS && a < b
    ensures a < next <= b && next in LITE1_INPUT_REGISTERS
    ensures LITE1_INPUT_REGISTERS[next] == LITE1_INPUT_REGISTERS[a] as int + 3
  {
    next := if a == THUMB_TMC_AA then FF_PIP else if a == FF_MCP then MF_PIP else if a == MF_MCP then RF_PIP
            else if a == RF_MCP then LF_PIP else if a == LF_MCP then NUM_JOINTS else a + 1;
  }

  /** Either product keeps three input registers for each of its joints, side by side from 0x1023
      on, in the order of the joints' ids. */
  lemma InputsAreSideBySide(product: ProductType, config: ProductConfig, a: JointId, b: JointId)
    requires var inputs := ApplyProtocolDefaults(product, config).jointInputRegisters; a in inputs && b in inputs
    requires a < b && forall c :: a < c < b ==> c !in ApplyProtocolDefaults(product, config).jointInputRegisters
    ensures var inputs := ApplyProtocolDefaults(product, config).jointInputRegisters;
            inputs[b] == inputs[a] as int + 3
  {
    if product != GHandLite1 {
      hide HOLDING_REGISTERS, LITE1_CONTROL_REGISTERS, LITE1_INPUT_REGISTERS;
      assert b > a + 1 ==> a + 1 in GHand5Inputs();
    } else {
      hide HOLDING_REGISTERS, LITE1_CONTROL_REGISTERS, LITE1_INPUT_REGISTERS, GHand5Inputs;
      var next := NextOfLite1(a, b);
    }
  }

  lemma InputsBegin(product: ProductType, config: ProductConfig)
    ensures var inputs := ApplyProtocolDefaults(product, config).jointInputRegisters;
            (exists id :: id in inputs && inputs[id] == 0x1023) && forall id :: id in inputs ==> inputs[id] >= 0x1023
  {
    hide HOLDING_REGISTERS, LITE1_CONTROL_REGISTERS;
    var inputs := ApplyProtocolDefaults(product, config).jointInputRegisters;
    var first := if product == GHandLite1 then THUMB_MCP else THUMB_IP;
    assert first in inputs && inputs[first] == 0x1023;
  }

  /** A profile decides the registers and timers, in a way validation accepts, and leaves the
      rest alone. */
  lemma ProfileKeepsTheRest(product: ProductType, config: ProductConfig)
    ensures var applied := ApplyProtocolDefaults(product, config);
            && applied.productType == product && applied.model == config.model && applied.name == config.name
            && applied.validJoints == config.validJoints && applied.jointLimits == config.jointLimits
            && applied.hasTactile == config.hasTactile && applied.tactileRegions == config.tactileRegions
            && |applied.timerValues| == applied.timerCount && |applied.deleteValues| == applied.deleteCount
  {
    hide HOLDING_REGISTERS, LITE1_CONTROL_REGISTERS, LITE1_INPUT_REGISTERS;
  }

  function ApplyProtocolDefaults(product: ProductType, config: ProductConfig): ProductConfig {
    if product == GHandLite1 then
      config.(productType := product, jointInputRegisters := LITE1_INPUT_REGISTERS,
              jointControlRegisters := LITE1_CONTROL_REGISTERS, modeRegister := NO_REGISTER,
              timerCount := 2, timerValues := [0, 0], deleteCount := 3, deleteValues := [0, 0, 0])
    else
      config.(productType := product, jointInputRegisters := GHand5Inputs(),
              jointControlRegisters := HOLDING_REGISTERS, modeRegister := MODE_REGISTER,
              timerCount := 1, timerValues := [0], deleteCount := 2, deleteValues := [0, 0])
  }
}
