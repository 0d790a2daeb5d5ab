/** `Simulator.simulate` (lib/sim.py): the cache of run records keyed by the
    experiment fingerprint, and the selection of the returned arrays by
    monitor name. The cache directory is a map from fingerprint to the seven
    arrays saved under it. */
module Cache {
  import Utils
  import opened Results
  import opened Fingerprint
  import opened Worlds
  import opened Sim

  /** The names `simulate` accepts in `monitors`, in the order of its `elif` chain. */
  const MonitorNames: seq<string> :=
    ["epochs", "rewards", "agent_ns", "agent_n", "agent_w", "agent_u", "key_states", "key_actions"]

  /** One returned array, tagged with the monitor that asked for it. */
  datatype MonitorValue =
    | EpochsArray(epochs: seq<nat>)
    | RewardsArray(rewards: seq<real>)
    | AgentNsArray(agentNs: seq<seq<real>>)
    | AgentNRow(n: seq<real>)
    | AgentWMatrix(w: seq<seq<real>>)
    | AgentUMatrix(u: seq<seq<real>>)
    | KeyStatesTable(keyStates: seq<Utils.Bits>)
    | KeyActionsTable(keyActions: seq<Utils.Bits>)

  /** The monitor a returned value answers. */
  function MonitorOf(v: MonitorValue): (name: string)
    ensures name in MonitorNames
  {
    match v
    case EpochsArray(_) => "epochs"
    case RewardsArray(_) => "rewards"
    case AgentNsArray(_) => "agent_ns"
    case AgentNRow(_) => "agent_n"
    case AgentWMatrix(_) => "agent_w"
    case AgentUMatrix(_) => "agent_u"
    case KeyStatesTable(_) => "key_states"
    case KeyActionsTable(_) => "key_actions"
  }

  /** One step of the monitor loop. An unknown name raises `ValueError`;
      "agent_n" is the last row of `agent_ns`, and indexing `[-1]` raises
      on a record without rows. */
  function Pick(rec: Record, name: string): (r: Result<MonitorValue, SimError>)
    ensures r.Failure? <==> name !in MonitorNames || (name == "agent_n" && |rec.agentNs| == 0)
    ensures r.Failure? ==> r.error == (if name in MonitorNames then EmptyRecord else InvalidMonitor(name))
    ensures r.Success? ==> MonitorOf(r.value) == name
    ensures r.Success? && name == "agent_n" ==> r.value.n == rec.agentNs[|rec.agentNs| - 1]
  {
    if name == "epochs" then Success(EpochsArray(rec.epochs))
    else if name == "rewards" then Success(RewardsArray(rec.rewards))
    else if name == "agent_ns" then Success(AgentNsArray(rec.agentNs))
    else if name == "agent_n" then
      if |rec.agentNs| == 0 then Failure(EmptyRecord) else Success(AgentNRow(rec.agentNs[|rec.agentNs| - 1]))
    else if name == "agent_w" then Success(AgentWMatrix(rec.agentW))
    else if name == "agent_u" then Success(AgentUMatrix(rec.agentU))
    else if name == "key_states" then Success(KeyStatesTable(rec.keyStates))
    else if name == "key_actions" then Success(KeyActionsTable(rec.keyActions))
    else Failure(InvalidMonitor(name))
  }

  /** The array a value carries is the record's array of that name. */
  ghost predicate FromRecord(rec: Record, v: MonitorValue) {
    match v
    case EpochsArray(a) => a == rec.epochs
    case RewardsArray(a) => a == rec.rewards
    case AgentNsArray(a) => a == rec.agentNs
    case AgentNRow(a) => |rec.agentNs| > 0 && a == rec.agentNs[|rec.agentNs| - 1]
    case AgentWMatrix(a) => a == rec.agentW
    case AgentUMatrix(a) => a == rec.agentU
    case KeyStatesTable(a) => a == rec.keyStates
    case KeyActionsTable(a) => a == rec.keyActions
  }

  /** Picking a value and asking which monitor it answers gives the name
      back, and the value is that array of the record: `Pick` and
      `MonitorOf` are inverse on the accepted names. */
  lemma PickRoundTrip(rec: Record, v: MonitorValue)
    requires FromRecord(rec, v)
    ensures Pick(rec, MonitorOf(v)) == Success(v)
  {
  }

  /** The loop over `monitors`: one value per name, in order, or the error
      of the first name that raises. */
  function SelectMonitors(rec: Record, names: seq<string>): (r: Result<seq<MonitorValue>, SimError>)
    ensures r.Success? ==>
      && |r.value| == |names|
      && forall i :: 0 <= i < |names| ==> Pick(rec, names[i]) == Success(r.value[i])
    ensures r.Success? <==> forall i :: 0 <= i < |names| ==> Pick(rec, names[i]).Success?
    ensures r.Failure? ==>
      exists i :: 0 <= i < |names| && Pick(rec, names[i]) == Failure(r.error)
        && forall j :: 0 <= j < i ==> Pick(rec, names[j]).Success?
    decreases |names|
  {
    if |names| == 0 then Success([])
    else
      match Pick(rec, names[0])
      case Failure(e) => Failure(e)
      case Success(v) =>
        match SelectMonitors(rec, names[1..])
        case Failure(e) => Failure(e)
        case Success(vs) => Success([v] + vs)
  }

  /** Where the cache lives: `cache_dir`, whose emptiness switches lookups
      off, and the fingerprint-keyed entries already saved under it. */
  datatype Simulator = Simulator(cacheDir: string, entries: map<string, Record>)

  /** What a call returns, with the simulator's cache after it. */
  datatype Call = Call(result: Result<seq<MonitorValue>, SimError>, after: Simulator)

  /** `simulate`: look the fingerprint up when `cache_dir` is set; on a miss
      run `_simulate` and save its record under the fingerprint; then
      select the monitors. An error of the run saves nothing; an error of
      the monitors comes after the save. */
  function Simulate(s: Simulator, monitors: seq<string>, c: Config, rng: Randomness): (call: Call)
    requires Fits(c, rng)
    ensures call.after.cacheDir == s.cacheDir
    ensures s.entries.Keys <= call.after.entries.Keys
    ensures forall k :: k in s.entries ==> call.after.entries[k] == s.entries[k]
    ensures s.cacheDir != [] && Fingerprint.Fingerprint(c) in s.entries ==>
      call == Call(SelectMonitors(s.entries[Fingerprint.Fingerprint(c)], monitors), s)
    ensures (s.cacheDir == [] || Fingerprint.Fingerprint(c) !in s.entries) && SimulationRecord(c, rng).Failure? ==>
      call == Call(Failure(SimulationRecord(c, rng).error), s)
    ensures (s.cacheDir == [] || Fingerprint.Fingerprint(c) !in s.entries) && SimulationRecord(c, rng).Success? ==>
      && call.result == SelectMonitors(SimulationRecord(c, rng).value, monitors)
      && (s.cacheDir != [] ==> call.after.entries == s.entries[Fingerprint.Fingerprint(c) := SimulationRecord(c, rng).value])
      && (s.cacheDir == [] ==> call.after == s)
  {
    var id := Fingerprint.Fingerprint(c);
    if s.cacheDir != [] && id in s.entries then
      Call(SelectMonitors(s.entries[id], monitors), s)
    else
      match SimulationRecord(c, rng)
      case Failure(e) => Call(Failure(e), s)
      case Success(rec) =>
        var after := if s.cacheDir != [] then s.(entries := s.entries[id := rec]) else s;
        Call(SelectMonitors(rec, monitors), after)
  }

  /** Cache correctness: with `cache_dir` set, once a call has run the
      simulation to the end, a second call with the same configuration
      returns the same result for every monitor list, whatever the generator
      would now produce, and saves nothing more. */
  lemma {:induction false} SecondCallHits(s: Simulator, monitors: seq<string>, monitors': seq<string>,
                                          c: Config, rng: Randomness, rng': Randomness)
    requires Fits(c, rng) && Fits(c, rng') && s.cacheDir != []
    requires Fingerprint.Fingerprint(c) in s.entries || SimulationRecord(c, rng).Success?
    ensures var first := Simulate(s, monitors, c, rng);
      && Fingerprint.Fingerprint(c) in first.after.entries
      && Simulate(first.after, monitors', c, rng') ==
           Call(SelectMonitors(first.after.entries[Fingerprint.Fingerprint(c)], monitors'), first.after)
      && Simulate(first.after, monitors, c, rng') == Call(first.result, first.after)
  {
    var first := Simulate(s, monitors, c, rng);
    if Fingerprint.Fingerprint(c) !in s.entries {
      assert first.after.entries[Fingerprint.Fingerprint(c)] == SimulationRecord(c, rng).value;
    }
  }

  /** A hit runs no simulation: two generators give the same call. */
  lemma HitIgnoresGenerator(s: Simulator, monitors: seq<string>, c: Config, rng: Randomness, rng': Randomness)
    requires Fits(c, rng) && Fits(c, rng')
    requires s.cacheDir != [] && Fingerprint.Fingerprint(c) in s.entries
    ensures Simulate(s, monitors, c, rng) == Simulate(s, monitors, c, rng')
  {
  }

  /** An unknown monitor name raises only after the record is saved: the
      cache holds the run although the call failed. */
  lemma {:induction false} MonitorErrorAfterSave(s: Simulator, monitors: seq<string>, c: Config, rng: Randomness)
    requires Fits(c, rng) && s.cacheDir != [] && Fingerprint.Fingerprint(c) !in s.entries
    requires SimulationRecord(c, rng).Success?
    requires exists i :: 0 <= i < |monitors| && monitors[i] !in MonitorNames
    ensures Simulate(s, monitors, c, rng).result.Failure?
    ensures Simulate(s, monitors, c, rng).after.entries[Fingerprint.Fingerprint(c)] == SimulationRecord(c, rng).value
  {
    var i :| 0 <= i < |monitors| && monitors[i] !in MonitorNames;
    assert Pick(SimulationRecord(c, rng).value, monitors[i]).Failure?;
  }
}
