/** The `chaos` store slice of the dashboard front end (chaosSlice.ts): the
    chaos settings shown to the user, a running flag and a newest-first list
    of chaos events. */
module ChaosSlice {
  import opened RaftTypes
  import opened BoundedLog

  const EventCap: nat := 100

  datatype ChaosSettings = ChaosSettings(
    enabled: bool,
    nodeFailureRate: real,
    networkPartitionRate: real,
    messageDropRate: real,
    networkDelayMin: int,
    networkDelayMax: int,
    recoveryRate: real)

  const InitialSettings: ChaosSettings := ChaosSettings(false, 0.1, 0.05, 0.02, 100, 1000, 0.3)

  /** A `Partial<ChaosConfig>`. The delay range is one field, so it is
      replaced as a pair. */
  datatype SettingsPatch = SettingsPatch(
    enabled: Option<bool>,
    nodeFailureRate: Option<real>,
    networkPartitionRate: Option<real>,
    messageDropRate: Option<real>,
    networkDelayRange: Option<(int, int)>,
    recoveryRate: Option<real>)

  /** `{ ...config, ...patch }`. */
  function MergeSettings(c: ChaosSettings, p: SettingsPatch): ChaosSettings
  {
    ChaosSettings(
      Pick(p.enabled, c.enabled),
      Pick(p.nodeFailureRate, c.nodeFailureRate),
      Pick(p.networkPartitionRate, c.networkPartitionRate),
      Pick(p.messageDropRate, c.messageDropRate),
      if p.networkDelayRange.Some? then p.networkDelayRange.value.0 else c.networkDelayMin,
      if p.networkDelayRange.Some? then p.networkDelayRange.value.1 else c.networkDelayMax,
      Pick(p.recoveryRate, c.recoveryRate))
  }

  /** A supplied field takes the supplied value, an omitted one keeps its
      old value, and applying the same patch twice is applying it once. */
  lemma MergeSettingsLaws(c: ChaosSettings, p: SettingsPatch)
    ensures var r := MergeSettings(c, p);
      && (p.enabled.Some? ==> r.enabled == p.enabled.value)
      && (p.enabled.None? ==> r.enabled == c.enabled)
      && (p.nodeFailureRate.Some? ==> r.nodeFailureRate == p.nodeFailureRate.value)
      && (p.networkPartitionRate.Some? ==> r.networkPartitionRate == p.networkPartitionRate.value)
      && (p.messageDropRate.Some? ==> r.messageDropRate == p.messageDropRate.value)
      && (p.networkDelayRange.Some? ==> (r.networkDelayMin, r.networkDelayMax) == p.networkDelayRange.value)
      && (p.recoveryRate.Some? ==> r.recoveryRate == p.recoveryRate.value)
      && (p.nodeFailureRate.None? ==> r.nodeFailureRate == c.nodeFailureRate)
      && (p.networkPartitionRate.None? ==> r.networkPartitionRate == c.networkPartitionRate)
      && (p.messageDropRate.None? ==> r.messageDropRate == c.messageDropRate)
      && (p.networkDelayRange.None? ==> r.networkDelayMin == c.networkDelayMin && r.networkDelayMax == c.networkDelayMax)
      && (p.recoveryRate.None? ==> r.recoveryRate == c.recoveryRate)
      && MergeSettings(r, p) == r
    ensures MergeSettings(c, SettingsPatch(None, None, None, None, None, None)) == c
  {
  }

  datatype EventKind = NodeFailureEvent | NetworkPartitionEvent | MessageDropEvent | NetworkDelayEvent | RecoveryEvent

  /** A chaos event (its timestamp is not modelled; its id is the clock
      reading the caller supplies). */
  datatype ChaosEvent = ChaosEvent(id: string, kind: EventKind, nodeId: Option<string>, description: string)

  class ChaosStore {
    var config: ChaosSettings
    var isRunning: bool
    var events: seq<ChaosEvent>

    constructor ()
      ensures config == InitialSettings && !config.enabled && !isRunning && events == []
    {
      config := InitialSettings;
      isRunning := false;
      events := [];
    }

    method UpdateConfig(p: SettingsPatch)
      modifies this`config
      ensures config == MergeSettings(old(config), p)
    {
      config := MergeSettings(config, p);
    }

    /** The running flag and the enabled setting move together. */
    method SetRunning(b: bool)
      modifies this`isRunning, this`config
      ensures isRunning == b && config.enabled == b
      ensures config == old(config).(enabled := b)
    {
      isRunning := b;
      config := config.(enabled := b);
    }

    /** addEvent: the new event first, the list cut to 100. */
    method AddEvent(kind: EventKind, nodeId: Option<string>, description: string, id: string)
      modifies this`events
      ensures events == PrependBounded(old(events), ChaosEvent(id, kind, nodeId, description), EventCap)
      ensures events[0] == ChaosEvent(id, kind, nodeId, description)
      ensures |events| <= EventCap
    {
      var t := [ChaosEvent(id, kind, nodeId, description)] + events;
      if |t| > EventCap {
        t := t[..EventCap];
      }
      events := t;
    }

    method ClearEvents()
      modifies this`events
      ensures events == []
    {
      events := [];
    }
  }
}
