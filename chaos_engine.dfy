/** The back-end chaos scheduler (ChaosEngine.ts, compiled unchanged to
    ChaosEngine.js): per-cluster configurations and running intervals. A
    running interval is represented by the configuration its callback
    captured when it was started; each tick of it is the step `Tick`, which
    takes its random draws as parameters. */
module ChaosEngine {
  import opened RaftTypes

  datatype DelayRange = DelayRange(min: int, max: int)

  datatype ChaosConfig = ChaosConfig(
    failureRate: real,
    networkDelayRange: DelayRange,
    partitionProbability: real,
    recoveryTime: int)

  const DefaultConfig: ChaosConfig := ChaosConfig(0.1, DelayRange(100, 1000), 0.05, 5000)

  /** Probability mass of the delay band that follows the partition band. */
  const DelayBand: real := 0.1

  /** A `Partial<ChaosConfig>`: the fields a caller supplies. */
  datatype ConfigPatch = ConfigPatch(
    failureRate: Option<real>,
    networkDelayRange: Option<DelayRange>,
    partitionProbability: Option<real>,
    recoveryTime: Option<int>)

  const EmptyPatch: ConfigPatch := ConfigPatch(None, None, None, None)

  /** `{ ...base, ...patch }`. */
  function Merge(base: ChaosConfig, p: ConfigPatch): ChaosConfig
  {
    ChaosConfig(
      Pick(p.failureRate, base.failureRate),
      Pick(p.networkDelayRange, base.networkDelayRange),
      Pick(p.partitionProbability, base.partitionProbability),
      Pick(p.recoveryTime, base.recoveryTime))
  }

  /** Two patches applied one after the other, the later one winning. */
  function Then(p: ConfigPatch, q: ConfigPatch): ConfigPatch
  {
    ConfigPatch(
      if q.failureRate.Some? then q.failureRate else p.failureRate,
      if q.networkDelayRange.Some? then q.networkDelayRange else p.networkDelayRange,
      if q.partitionProbability.Some? then q.partitionProbability else p.partitionProbability,
      if q.recoveryTime.Some? then q.recoveryTime else p.recoveryTime)
  }

  /** The shallow merge: an empty patch changes nothing, re-applying a patch
      changes nothing more, successive patches compose, a supplied field
      takes the supplied value and a field left out of the patch keeps its
      old value. */
  lemma MergeLaws(base: ChaosConfig, p: ConfigPatch, q: ConfigPatch)
    ensures Merge(base, EmptyPatch) == base
    ensures Merge(Merge(base, p), p) == Merge(base, p)
    ensures Merge(Merge(base, p), q) == Merge(base, Then(p, q))
    ensures p.failureRate.Some? ==> Merge(base, p).failureRate == p.failureRate.value
    ensures p.networkDelayRange.Some? ==> Merge(base, p).networkDelayRange == p.networkDelayRange.value
    ensures p.partitionProbability.Some? ==> Merge(base, p).partitionProbability == p.partitionProbability.value
    ensures p.recoveryTime.Some? ==> Merge(base, p).recoveryTime == p.recoveryTime.value
    ensures p.failureRate.None? ==> Merge(base, p).failureRate == base.failureRate
    ensures p.networkDelayRange.None? ==> Merge(base, p).networkDelayRange == base.networkDelayRange
    ensures p.partitionProbability.None? ==> Merge(base, p).partitionProbability == base.partitionProbability
    ensures p.recoveryTime.None? ==> Merge(base, p).recoveryTime == base.recoveryTime
  {
  }

  /** The configuration used for a cluster: its own, or the default. */
  function ConfigFor(configs: map<string, ChaosConfig>, clusterId: string): ChaosConfig
  {
    if clusterId in configs then configs[clusterId] else DefaultConfig
  }

  datatype ChaosAction = NoAction | NodeFailure | NetworkPartition | NetworkDelay(delay: int)

  /** `Math.floor(r * (max - min + 1)) + min` for a draw r in [0,1). */
  function SimulatedDelay(range: DelayRange, r: real): (d: int)
    requires 0.0 <= r < 1.0
    ensures range.min <= range.max ==> range.min <= d <= range.max
  {
    (r * (range.max - range.min + 1) as real).Floor + range.min
  }

  /** The band choice of executeRandomChaos for the draw r, with r2 the draw
      of the delay simulator. */
  function ChooseAction(cfg: ChaosConfig, r: real, r2: real): ChaosAction
    requires 0.0 <= r2 < 1.0
  {
    if r < cfg.failureRate then NodeFailure
    else if r < cfg.failureRate + cfg.partitionProbability then NetworkPartition
    else if r < cfg.failureRate + cfg.partitionProbability + DelayBand
    then NetworkDelay(SimulatedDelay(cfg.networkDelayRange, r2))
    else NoAction
  }

  /** The rank of an action's band, in draw order. */
  function Band(a: ChaosAction): nat
  {
    match a
    case NodeFailure => 0
    case NetworkPartition => 1
    case NetworkDelay(_) => 2
    case NoAction => 3
  }

  /** A larger draw never selects an earlier band, and the delay draw only
      affects the delay. */
  lemma ChooseActionMonotone(cfg: ChaosConfig, r: real, s: real, r2: real, s2: real)
    requires 0.0 <= r2 < 1.0 && 0.0 <= s2 < 1.0
    requires r <= s
    ensures Band(ChooseAction(cfg, r, r2)) <= Band(ChooseAction(cfg, s, s2))
    ensures Band(ChooseAction(cfg, r, r2)) == Band(ChooseAction(cfg, r, s2))
  {
  }

  /** With the default configuration a draw below 0.1 fails a node, one in
      [0.1, 0.15) partitions, one in [0.15, 0.25) delays by 100 to 1000 ms,
      and anything from 0.25 on does nothing. */
  lemma DefaultBands(r: real, r2: real)
    requires 0.0 <= r < 1.0 && 0.0 <= r2 < 1.0
    ensures ChooseAction(DefaultConfig, r, r2) == NodeFailure <==> r < 0.1
    ensures ChooseAction(DefaultConfig, r, r2) == NetworkPartition <==> 0.1 <= r < 0.15
    ensures ChooseAction(DefaultConfig, r, r2).NetworkDelay? <==> 0.15 <= r < 0.25
    ensures ChooseAction(DefaultConfig, r, r2) == NoAction <==> 0.25 <= r
    ensures ChooseAction(DefaultConfig, r, r2).NetworkDelay? ==>
      100 <= ChooseAction(DefaultConfig, r, r2).delay <= 1000
  {
  }

  class Chaos {
    /** The running intervals: the configuration each one captured. */
    var chaosIntervals: map<string, ChaosConfig>
    var configs: map<string, ChaosConfig>

    constructor ()
      ensures chaosIntervals == map[] && configs == map[]
    {
      chaosIntervals := map[];
      configs := map[];
    }

    function GetConfig(clusterId: string): (cfg: ChaosConfig)
      reads this
      ensures clusterId in configs ==> cfg == configs[clusterId]
      ensures clusterId !in configs ==> cfg == DefaultConfig
    {
      ConfigFor(configs, clusterId)
    }

    predicate IsRunning(clusterId: string)
      reads this
    {
      clusterId in chaosIntervals
    }

    /** A second start of a running cluster changes nothing; otherwise an
        interval is started with the cluster's current configuration. */
    method Start(clusterId: string)
      modifies this`chaosIntervals
      ensures IsRunning(clusterId)
      ensures clusterId in old(chaosIntervals) ==> chaosIntervals == old(chaosIntervals)
      ensures clusterId !in old(chaosIntervals) ==>
        chaosIntervals == old(chaosIntervals)[clusterId := GetConfig(clusterId)]
    {
      if clusterId in chaosIntervals {
        return;
      }
      var config := GetConfig(clusterId);
      chaosIntervals := chaosIntervals[clusterId := config];
    }

    /** Stopping removes the cluster's interval if there is one. */
    method Stop(clusterId: string)
      modifies this`chaosIntervals
      ensures chaosIntervals == old(chaosIntervals) - {clusterId}
      ensures !IsRunning(clusterId)
    {
      if clusterId in chaosIntervals {
        chaosIntervals := chaosIntervals - {clusterId};
      }
    }

    /** The patch is merged over the current or default configuration; the
        configuration a running interval captured is left as it is. */
    method UpdateConfig(clusterId: string, patch: ConfigPatch)
      modifies this`configs
      ensures configs == old(configs)[clusterId := Merge(ConfigFor(old(configs), clusterId), patch)]
      ensures GetConfig(clusterId) == Merge(ConfigFor(old(configs), clusterId), patch)
    {
      var current := GetConfig(clusterId);
      configs := configs[clusterId := Merge(current, patch)];
    }

    /** One tick of a cluster's interval, if it runs: the action its
        captured configuration selects. The fault simulators only log, so
        the tick changes no state. */
    method Tick(clusterId: string, r: real, r2: real) returns (action: Option<ChaosAction>)
      requires 0.0 <= r < 1.0 && 0.0 <= r2 < 1.0
      ensures !IsRunning(clusterId) ==> action == None
      ensures IsRunning(clusterId) ==>
        action == Some(ChooseAction(chaosIntervals[clusterId], r, r2))
    {
      if clusterId in chaosIntervals {
        action := Some(ChooseAction(chaosIntervals[clusterId], r, r2));
      } else {
        action := None;
      }
    }
  }
}
