/**
 * config.go: the per-device MQTT settings, the topic names built from them,
 * their validation and the registry normalisation done by ParseConfig once
 * the YAML has been decoded.
 */
module Config {
  import opened Wrappers
  import opened Ascii

  /** MQTTParasiteConfig: the display name of one registered device. */
  datatype MqttParasiteConfig = MqttParasiteConfig(name: string)

  /** kBaseMQTTTopic is `TopicPrefix + "%s_%s" + TopicSuffix`. */
  const TopicPrefix := "parasite-scanner/sensor/"
  const TopicSuffix := "/state"

  const SoilMoisture := "soil_moisture"
  const Temperature := "temperature"
  const Humidity := "humidity"
  const BatteryVoltage := "battery_voltage"
  const Rssi := "rssi"
  /** The metric names the five topic builders use. */
  const Metrics := {SoilMoisture, Temperature, Humidity, BatteryVoltage, Rssi}

  /** NormalizedName: the name lower-cased, with every space turned into `_`. */
  function NormalizedName(cfg: MqttParasiteConfig): (r: string)
    ensures |r| == |cfg.name|
    ensures ' ' !in r && IsLower(r)
    ensures forall i :: 0 <= i < |r| ==>
      r[i] == if cfg.name[i] == ' ' then '_' else LowerChar(cfg.name[i])
  {
    ReplaceAll(ToLower(cfg.name), ' ', '_')
  }

  /** Normalising a normalised name changes nothing. */
  lemma NormalizedNameIdempotent(cfg: MqttParasiteConfig)
    ensures NormalizedName(MqttParasiteConfig(NormalizedName(cfg))) == NormalizedName(cfg)
  {
    var n := NormalizedName(cfg);
    var m := NormalizedName(MqttParasiteConfig(n));
    forall i | 0 <= i < |n|
      ensures m[i] == n[i]
    {
      assert n[i] != ' ' && !IsUpper(n[i]);
    }
  }

  /** fmt.Sprintf(kBaseMQTTTopic, device, metric). */
  function StateTopic(device: string, metric: string): (t: string)
    ensures |t| == |TopicPrefix| + |device| + 1 + |metric| + |TopicSuffix|
    ensures t[..|TopicPrefix|] == TopicPrefix && t[|t| - |TopicSuffix|..] == TopicSuffix
  {
    TopicPrefix + device + "_" + metric + TopicSuffix
  }

  /** The device part of a state topic for `metric`, if `t` is one. */
  function TopicDevice(t: string, metric: string): (r: Option<string>)
    ensures r.Some? <==>
      |t| >= |TopicPrefix| + |metric| + 1 + |TopicSuffix|
      && t[..|TopicPrefix|] == TopicPrefix
      && t[|t| - |metric| - 1 - |TopicSuffix|..] == "_" + metric + TopicSuffix
  {
    var tail := "_" + metric + TopicSuffix;
    if |t| >= |TopicPrefix| + |tail| && t[..|TopicPrefix|] == TopicPrefix && t[|t| - |tail|..] == tail
    then Some(t[|TopicPrefix|..|t| - |tail|])
    else None
  }

  /** Reading the device back from a topic gives the device it was built for... */
  lemma TopicDeviceOfStateTopic(device: string, metric: string)
    ensures TopicDevice(StateTopic(device, metric), metric) == Some(device)
  {
    var t := StateTopic(device, metric);
    var tail := "_" + metric + TopicSuffix;
    assert t == TopicPrefix + device + tail;
    assert t[..|TopicPrefix|] == TopicPrefix;
    assert t[|t| - |tail|..] == tail;
    assert t[|TopicPrefix|..|t| - |tail|] == device;
  }

  /** ...and a topic the device is read from is the state topic of that device. */
  lemma StateTopicOfTopicDevice(t: string, metric: string)
    requires TopicDevice(t, metric).Some?
    ensures StateTopic(TopicDevice(t, metric).value, metric) == t
  {
    var tail := "_" + metric + TopicSuffix;
    var device := TopicDevice(t, metric).value;
    assert t == t[..|TopicPrefix|] + t[|TopicPrefix|..|t| - |tail|] + t[|t| - |tail|..];
    assert StateTopic(device, metric) == TopicPrefix + device + tail;
  }

  function SoilMoistureTopic(cfg: MqttParasiteConfig): (t: string)
    ensures TopicDevice(t, SoilMoisture) == Some(NormalizedName(cfg))
  {
    TopicDeviceOfStateTopic(NormalizedName(cfg), SoilMoisture);
    StateTopic(NormalizedName(cfg), SoilMoisture)
  }

  function TemperatureTopic(cfg: MqttParasiteConfig): (t: string)
    ensures TopicDevice(t, Temperature) == Some(NormalizedName(cfg))
  {
    TopicDeviceOfStateTopic(NormalizedName(cfg), Temperature);
    StateTopic(NormalizedName(cfg), Temperature)
  }

  function HumidityTopic(cfg: MqttParasiteConfig): (t: string)
    ensures TopicDevice(t, Humidity) == Some(NormalizedName(cfg))
  {
    TopicDeviceOfStateTopic(NormalizedName(cfg), Humidity);
    StateTopic(NormalizedName(cfg), Humidity)
  }

  function BatteryVoltageTopic(cfg: MqttParasiteConfig): (t: string)
    ensures TopicDevice(t, BatteryVoltage) == Some(NormalizedName(cfg))
  {
    TopicDeviceOfStateTopic(NormalizedName(cfg), BatteryVoltage);
    StateTopic(NormalizedName(cfg), BatteryVoltage)
  }

  function RssiTopic(cfg: MqttParasiteConfig): (t: string)
    ensures TopicDevice(t, Rssi) == Some(NormalizedName(cfg))
  {
    TopicDeviceOfStateTopic(NormalizedName(cfg), Rssi);
    StateTopic(NormalizedName(cfg), Rssi)
  }

  /** `"_" + m1` is not a proper ending of `"_" + m2`. */
  predicate EndsOnlyItself(m1: string, m2: string) {
    |m1| <= |m2| && ("_" + m2)[|m2| - |m1|..] == "_" + m1 ==> m1 == m2
  }

  /** What `"_" + m1` ending `"_" + m2` says about single characters and lengths. */
  lemma TailChars(m1: string, m2: string)
    requires 0 < |m1| <= |m2| && ("_" + m2)[|m2| - |m1|..] == "_" + m1
    ensures m2[|m2| - 1] == m1[|m1| - 1]
    ensures |m1| == |m2| ==> m1 == m2
    ensures |m1| < |m2| ==> m2[|m2| - |m1| - 1] == '_'
  {
    var s := ("_" + m2)[|m2| - |m1|..];
    assert s[0] == '_' && s[|s| - 1] == m1[|m1| - 1];
    if |m1| == |m2| {
      assert m2 == ("_" + m2)[1..] && m1 == ("_" + m1)[1..];
    }
  }

  /** Where an underscore in one metric name leaves room for a shorter one, the two end differently. */
  lemma MetricTails(m1: string, m2: string)
    requires m1 in Metrics && m2 in Metrics && 0 < |m1| < |m2| && m2[|m2| - |m1| - 1] == '_'
    ensures m2[|m2| - 1] != m1[|m1| - 1]
  {
    if m2 == SoilMoisture {
      assert |m1| == 8;
    } else if m2 == BatteryVoltage {
      assert false;
    } else {
      assert m2 == Temperature || m2 == Humidity || m2 == Rssi;
    }
  }

  /** No metric name, with its `_`, ends another one. */
  lemma MetricsSuffixFree(m1: string, m2: string)
    requires m1 in Metrics && m2 in Metrics
    ensures EndsOnlyItself(m1, m2)
  {
    if |m1| <= |m2| && ("_" + m2)[|m2| - |m1|..] == "_" + m1 {
      assert |m1| > 0;
      TailChars(m1, m2);
      if |m1| < |m2| {
        MetricTails(m1, m2);
      }
    }
  }

  /** A state topic carries `device + "_" + metric` between its fixed prefix and suffix. */
  lemma StateTopicMiddle(device: string, metric: string)
    ensures var t := StateTopic(device, metric);
      |t| == |TopicPrefix| + |device| + 1 + |metric| + |TopicSuffix|
      && t[|TopicPrefix|..|t| - |TopicSuffix|] == device + "_" + metric
  {
    var t := StateTopic(device, metric);
    assert t == TopicPrefix + (device + "_" + metric) + TopicSuffix;
  }

  /** `device + "_" + metric` determines both parts when neither metric ends the other. */
  lemma JoinedNeverCollide(n1: string, n2: string, m1: string, m2: string)
    requires EndsOnlyItself(m1, m2) && |m1| <= |m2|
    requires n1 + "_" + m1 == n2 + "_" + m2
    ensures n1 == n2 && m1 == m2
  {
    var a := n1 + ("_" + m1);
    var b := n2 + ("_" + m2);
    assert a == b by {
      assert a == n1 + "_" + m1 && b == n2 + "_" + m2;
    }
    assert ("_" + m2)[|m2| - |m1|..] == "_" + m1 by {
      assert a[|a| - |m1| - 1..] == "_" + m1;
      assert b[|b| - |m1| - 1..] == ("_" + m2)[|m2| - |m1|..];
    }
    assert n1 == a[..|n1|] && n2 == b[..|n2|];
  }

  /**
   * Two state topics are equal only when they are for the same device and
   * the same metric: the five topics of a device are pairwise distinct, and
   * distinct devices share no topic.
   */
  lemma TopicsNeverCollide(n1: string, n2: string, m1: string, m2: string)
    requires m1 in Metrics && m2 in Metrics
    requires StateTopic(n1, m1) == StateTopic(n2, m2)
    ensures n1 == n2 && m1 == m2
  {
    StateTopicMiddle(n1, m1);
    StateTopicMiddle(n2, m2);
    MetricsSuffixFree(m1, m2);
    MetricsSuffixFree(m2, m1);
    if |m1| <= |m2| {
      JoinedNeverCollide(n1, n2, m1, m2);
    } else {
      JoinedNeverCollide(n2, n1, m2, m1);
    }
  }

  const MissingName := "missing name"

  /** ValidateMQTTParasiteConfig: a device needs a name. */
  function ValidateMqttParasiteConfig(cfg: MqttParasiteConfig): (r: Outcome<string>)
    ensures r.Fail? <==> cfg.name == ""
    ensures r.Fail? ==> r.error == MissingName
  {
    if cfg.name == "" then Fail(MissingName) else Pass
  }

  /** The lower-case forms of a set of registry keys (MAC addresses). */
  ghost function LowerKeys(keys: set<string>): set<string> {
    set k | k in keys :: ToLower(k)
  }

  /** Adding a key adds its lower-case form; a key already among the lower-case forms is lower case. */
  lemma LowerKeysGrow(keys: set<string>, k: string)
    ensures LowerKeys(keys + {k}) == LowerKeys(keys) + {ToLower(k)}
    ensures k in LowerKeys(keys) ==> ToLower(k) == k
  {
    if k in LowerKeys(keys) {
      var j :| j in keys && ToLower(j) == k;
      ToLowerIdempotent(j);
    }
  }

  /** No two registry keys differ only in letter case. */
  ghost predicate CaseDistinct(registry: map<string, MqttParasiteConfig>) {
    forall k1, k2 :: k1 in registry && k2 in registry && ToLower(k1) == ToLower(k2) ==> k1 == k2
  }

  /**
   * The keys part of the loop's invariant: the keys still to visit are as
   * decoded, the visited ones sit under their lower-case forms.
   */
  ghost predicate KeysMoved(registry: map<string, MqttParasiteConfig>, reg: map<string, MqttParasiteConfig>,
                            todo: set<string>, done: set<string>)
  {
    && todo + done == registry.Keys && todo !! done
    && reg.Keys == todo + LowerKeys(done)
  }

  /** Every entry that was moved had a name. */
  ghost predicate MovedNamed(reg: map<string, MqttParasiteConfig>, done: set<string>) {
    forall k :: k in done ==> ToLower(k) in reg && reg[ToLower(k)].name != ""
  }

  /** Without case clashes no entry is overwritten: each config is where its key says. */
  ghost predicate ValuesKept(registry: map<string, MqttParasiteConfig>, reg: map<string, MqttParasiteConfig>,
                             todo: set<string>, done: set<string>)
  {
    && (forall k :: k in todo ==> k in registry && k in reg && reg[k] == registry[k])
    && (forall k :: k in done ==> k in registry && ToLower(k) in reg && reg[ToLower(k)] == registry[k])
  }

  /** One turn of the loop: delete the visited key, store its config under the lower-case key. */
  ghost function Move(reg: map<string, MqttParasiteConfig>, k: string): map<string, MqttParasiteConfig>
    requires k in reg
  {
    (reg - {k})[ToLower(k) := reg[k]]
  }

  lemma KeysMovedStep(registry: map<string, MqttParasiteConfig>, reg: map<string, MqttParasiteConfig>,
                      todo: set<string>, done: set<string>, k: string)
    requires KeysMoved(registry, reg, todo, done) && k in todo
    ensures KeysMoved(registry, Move(reg, k), todo - {k}, done + {k})
  {
    LowerKeysGrow(done, k);
    ToLowerIdempotent(k);
  }

  lemma MovedNamedStep(reg: map<string, MqttParasiteConfig>, done: set<string>, k: string)
    requires MovedNamed(reg, done) && k in reg && reg[k].name != ""
    ensures MovedNamed(Move(reg, k), done + {k})
  {
    var r := Move(reg, k);
    forall j | j in done + {k}
      ensures ToLower(j) in r && r[ToLower(j)].name != ""
    {
      if j != k && ToLower(j) == k {
        ToLowerIdempotent(j);
      }
    }
  }

  lemma ValuesKeptStep(registry: map<string, MqttParasiteConfig>, reg: map<string, MqttParasiteConfig>,
                       todo: set<string>, done: set<string>, k: string)
    requires CaseDistinct(registry) && ValuesKept(registry, reg, todo, done)
    requires todo !! done && k in todo
    ensures ValuesKept(registry, Move(reg, k), todo - {k}, done + {k})
  {
    var r := Move(reg, k);
    forall j | j in todo - {k}
      ensures j in r && r[j] == registry[j]
    {
      if j == ToLower(k) {
        ToLowerIdempotent(k);
      }
    }
    forall j | j in done + {k}
      ensures ToLower(j) in r && r[ToLower(j)] == registry[j]
    {
      if j != k {
        ToLowerIdempotent(j);
      }
    }
  }

  /** Once every key has been visited, the registry holds what ParseConfig promises. */
  lemma AllMoved(registry: map<string, MqttParasiteConfig>, reg: map<string, MqttParasiteConfig>, done: set<string>)
    requires KeysMoved(registry, reg, {}, done) && MovedNamed(reg, done)
    requires CaseDistinct(registry) ==> ValuesKept(registry, reg, {}, done)
    ensures reg.Keys == LowerKeys(registry.Keys)
    ensures forall k :: k in reg ==> IsLower(k) && reg[k].name != ""
    ensures CaseDistinct(registry) ==>
      forall k :: k in registry ==> registry[k].name != "" && reg[ToLower(k)] == registry[k]
  {
    forall k | k in reg
      ensures IsLower(k) && reg[k].name != ""
    {
      var j :| j in done && ToLower(j) == k;
    }
  }

  /**
   * The loop of ParseConfig over the decoded registry: each entry is
   * validated, then moved to its lower-cased key. Go visits the keys in an
   * unspecified order, so the next key is picked arbitrarily; an entry moved
   * to a new key may be visited again, which validates it again and moves
   * it onto itself, so such visits are not repeated here.
   */
  method NormalizeRegistry(registry: map<string, MqttParasiteConfig>)
    returns (r: Result<map<string, MqttParasiteConfig>, string>)
    ensures r.Success? ==> r.value.Keys == LowerKeys(registry.Keys)
    ensures r.Success? ==> forall k :: k in r.value ==> IsLower(k) && r.value[k].name != ""
    ensures r.Failure? ==> exists k :: k in registry && r.error == k + ": " + MissingName
    ensures CaseDistinct(registry) ==>
      (r.Success? <==> forall k :: k in registry ==> registry[k].name != "")
    ensures CaseDistinct(registry) && r.Success? ==>
      forall k :: k in registry ==> r.value[ToLower(k)] == registry[k]
    ensures CaseDistinct(registry) && r.Failure? ==>
      exists k :: k in registry && registry[k].name == "" && r.error == k + ": " + MissingName
  {
    var reg := registry;
    var todo := registry.Keys;
    ghost var done: set<string> := {};
    while todo != {}
      invariant KeysMoved(registry, reg, todo, done)
      invariant MovedNamed(reg, done)
      invariant CaseDistinct(registry) ==> ValuesKept(registry, reg, todo, done)
      decreases |todo|
    {
      var k :| k in todo;
      var cfg := reg[k];
      var v := ValidateMqttParasiteConfig(cfg);
      if v.Fail? {
        assert k in registry && (CaseDistinct(registry) ==> registry[k].name == "");
        return Failure(k + ": " + v.error);
      }
      KeysMovedStep(registry, reg, todo, done, k);
      MovedNamedStep(reg, done, k);
      if CaseDistinct(registry) {
        ValuesKeptStep(registry, reg, todo, done, k);
      }
      reg := (reg - {k})[ToLower(k) := cfg];
      todo := todo - {k};
      done := done + {k};
    }
    AllMoved(registry, reg, done);
    return Success(reg);
  }
}
