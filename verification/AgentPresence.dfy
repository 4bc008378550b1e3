/** An identified agent is dropped only after six probes in a row have missed it. */
module AgentPresence {
  import opened Options
  import AgentProbes

  const MISS_CONFIRMATION_ATTEMPTS: nat := 6
  const U8_MAX: nat := 255

  type Agent = AgentProbes.Agent

  datatype Presence = Presence(currentAgent: Option<Agent>, consecutiveMisses: nat)
  datatype Observed = Observed(presence: Presence, changed: bool)

  function Observe(p: Presence, probe: Option<Agent>): Observed {
    match probe
    case Some(agent) => Observed(Presence(Some(agent), 0), p.currentAgent != Some(agent))
    case None =>
      if p.currentAgent.None? then Observed(Presence(None, 0), false)
      else
        var misses := if p.consecutiveMisses < U8_MAX then p.consecutiveMisses + 1 else U8_MAX;
        if misses < MISS_CONFIRMATION_ATTEMPTS then Observed(p.(consecutiveMisses := misses), false)
        else Observed(Presence(None, 0), true)
  }

  /** An observation says that the agent changed exactly when it did. */
  lemma ChangesAreTold(p: Presence, probe: Option<Agent>)
    ensures var o := Observe(p, probe);
            && (o.changed <==> o.presence.currentAgent != p.currentAgent)
            && (probe.Some? ==> o.presence == Presence(probe, 0))
  {}

  function ObserveAll(p: Presence, probes: seq<Option<Agent>>): Presence
    decreases |probes|
  {
    if probes == [] then p
    else Observe(ObserveAll(p, probes[..|probes| - 1]), probes[|probes| - 1]).presence
  }

  class AgentDetectionPresence {
    var currentAgent: Option<Agent>
    var consecutiveMisses: nat

    function State(): Presence
      reads this
    {
      Presence(currentAgent, consecutiveMisses)
    }

    constructor (agent: Option<Agent>)
      ensures State() == Presence(agent, 0)
    {
      currentAgent, consecutiveMisses := agent, 0;
    }

    method ClearCurrentAgent() returns (changed: bool)
      modifies this
      ensures State() == Presence(None, 0) && changed == old(currentAgent).Some?
    {
      changed := currentAgent.Some?;
      currentAgent, consecutiveMisses := None, 0;
    }

    method ObserveProcessProbe(identified: Option<Agent>) returns (changed: bool)
      modifies this
      ensures Observed(State(), changed) == Observe(old(State()), identified)
    {
      if identified.Some? {
        consecutiveMisses := 0;
        if identified == currentAgent {
          return false;
        }
        currentAgent := identified;
        return true;
      }
      if currentAgent.None? {
        consecutiveMisses := 0;
        return false;
      }
      if consecutiveMisses < U8_MAX {
        consecutiveMisses := consecutiveMisses + 1;
      } else {
        consecutiveMisses := U8_MAX;
      }
      if consecutiveMisses < MISS_CONFIRMATION_ATTEMPTS {
        return false;
      }
      currentAgent, consecutiveMisses := None, 0;
      changed := true;
    }
  }

  /** How many probes at the end of the list missed. */
  function Streak(probes: seq<Option<Agent>>): nat
    decreases |probes|
  {
    if probes == [] || probes[|probes| - 1].Some? then 0 else 1 + Streak(probes[..|probes| - 1])
  }

  /** The agent last seen, starting from one already known. */
  function LastSeen(agent: Agent, probes: seq<Option<Agent>>): Agent
    decreases |probes|
  {
    if probes == [] then agent
    else if probes[|probes| - 1].Some? then probes[|probes| - 1].value
    else LastSeen(agent, probes[..|probes| - 1])
  }

  /** While no run of misses reaches six, the pane keeps the agent last seen; the probe that
      completes six in a row clears it, and it stays cleared until some agent is seen. */
  lemma {:induction false} SixMissesInARow(agent: Agent, probes: seq<Option<Agent>>)
    ensures ObserveAll(Presence(Some(agent), 0), probes)
            == if Streak(probes) < 6
               then Presence(Some(LastSeen(agent, probes)), Streak(probes))
               else Presence(None, 0)
    decreases |probes|
  {
    if probes != [] {
      SixMissesInARow(agent, probes[..|probes| - 1]);
    }
  }
}
