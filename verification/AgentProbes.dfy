/** When a pane's foreground process is probed for an agent, and how often that can be. */
module AgentProbes {
  import opened Options

  // Times are nanoseconds on one monotonic clock.
  const MILLISECOND: nat := 1_000_000
  const RECHECK_IDENTIFIED: nat := 5_000_000_000
  const RECHECK_MISSING_GROUP: nat := 30_000_000_000
  const WINDOW: nat := 8_000_000_000
  const FAST_WINDOW: nat := 1_500_000_000
  const FAST_RECHECK: nat := 500_000_000
  const SLOW_RECHECK: nat := 2_000_000_000
  const IDLE_RESET: nat := 2_000_000_000

  type Agent = nat

  datatype ProbeInput = ProbeInput(
    currentAgent: Option<Agent>,
    suppressedAgent: Option<Agent>,
    foregroundPgid: Option<nat>,
    lastForegroundPgid: Option<nat>,
    hasProcessProbe: bool,
    acquisitionAge: Option<nat>,
    pendingForegroundShellClear: bool,
    pendingRestoreProbe: bool,
    elapsedSinceProcessCheck: nat)

  /** Elapsed time, zero if the clock reads earlier. */
  function Since(now: nat, earlier: nat): nat {
    if earlier <= now then now - earlier else 0
  }

  predicate ForegroundGroupChanged(pgid: Option<nat>, last: Option<nat>) {
    pgid != last && (pgid.Some? || last.Some?)
  }

  predicate ShouldSkipForAuthority(authorityActive: bool, i: ProbeInput) {
    && authorityActive && !i.pendingForegroundShellClear && i.suppressedAgent.None? && i.hasProcessProbe
    && !ForegroundGroupChanged(i.foregroundPgid, i.lastForegroundPgid)
  }

  predicate IsAcquisitionDue(age: nat, elapsed: nat) {
    age <= WINDOW && elapsed >= if age <= FAST_WINDOW then FAST_RECHECK else SLOW_RECHECK
  }

  predicate ShouldProbeForegroundJob(i: ProbeInput) {
    var changed := ForegroundGroupChanged(i.foregroundPgid, i.lastForegroundPgid);
    if i.pendingForegroundShellClear || i.pendingRestoreProbe then true
    else if i.suppressedAgent.Some? then !i.hasProcessProbe || changed
    else if i.acquisitionAge.Some? && IsAcquisitionDue(i.acquisitionAge.value, i.elapsedSinceProcessCheck) then true
    else if i.currentAgent.None? then
      !i.hasProcessProbe || changed || (i.foregroundPgid.None? && i.elapsedSinceProcessCheck >= RECHECK_MISSING_GROUP)
    else changed || i.elapsedSinceProcessCheck >= RECHECK_IDENTIFIED
  }

  // ----- Acquisition windows opened by content changes -----

  datatype Acquisition = Acquisition(startedAt: Option<nat>, lastContentChangeAt: Option<nat>)

  predicate ShouldStart(a: Acquisition, now: nat) {
    a.startedAt.Some? ==>
      && Since(now, a.startedAt.value) > WINDOW
      && (a.lastContentChangeAt.Some? ==> Since(now, a.lastContentChangeAt.value) >= IDLE_RESET)
  }

  predicate ShouldReset(a: Acquisition, now: nat) {
    && a.startedAt.Some? && a.lastContentChangeAt.Some?
    && Since(now, a.startedAt.value) > WINDOW
    && Since(now, a.lastContentChangeAt.value) >= IDLE_RESET
  }

  function Synced(a: Acquisition, current: Option<Agent>, suppressed: Option<Agent>,
                  groupChanged: bool, contentChanged: bool, now: nat): Acquisition {
    if current.Some? || suppressed.Some? || groupChanged then a
    else if contentChanged then Acquisition(if ShouldStart(a, now) then Some(now) else a.startedAt, Some(now))
    else if ShouldReset(a, now) then Acquisition(None, None)
    else a
  }

  class AcquisitionClock {
    var startedAt: Option<nat>
    var lastContentChangeAt: Option<nat>

    function State(): Acquisition
      reads this
    {
      Acquisition(startedAt, lastContentChangeAt)
    }

    constructor ()
      ensures State() == Acquisition(None, None)
    {
      startedAt, lastContentChangeAt := None, None;
    }

    method SyncContentChange(current: Option<Agent>, suppressed: Option<Agent>,
                             groupChanged: bool, contentChanged: bool, now: nat)
      modifies this
      ensures State() == Synced(old(State()), current, suppressed, groupChanged, contentChanged, now)
    {
      if current.Some? || suppressed.Some? || groupChanged {
        return;
      }
      if contentChanged {
        if startedAt.None? {
          startedAt := Some(now);
        } else if Since(now, startedAt.value) > WINDOW {
          if lastContentChangeAt.None? || Since(now, lastContentChangeAt.value) >= IDLE_RESET {
            startedAt := Some(now);
          }
        }
        lastContentChangeAt := Some(now);
        return;
      }
      if startedAt.None? || lastContentChangeAt.None? {
        return;
      }
      if Since(now, startedAt.value) > WINDOW && Since(now, lastContentChangeAt.value) >= IDLE_RESET {
        startedAt, lastContentChangeAt := None, None;
      }
    }
  }

  // ----- Ticks of an unidentified pane -----

  /** One turn of the detector: the time, whether a lifecycle authority holds probing off,
      whether the turn got as far as comparing content, and whether it differed. */
  datatype Tick = Tick(now: nat, authority: bool, compared: bool, contentChanged: bool)

  /** An unidentified pane with a prior probe, a known foreground group that does not change,
      no suppression and nothing pending. */
  datatype Pane = Pane(group: nat, lastCheck: nat, acquisition: Acquisition)

  function InputAt(p: Pane, now: nat): ProbeInput {
    ProbeInput(None, None, Some(p.group), Some(p.group), true,
               if p.acquisition.startedAt.Some? then Some(Since(now, p.acquisition.startedAt.value)) else None,
               false, false, Since(now, p.lastCheck))
  }

  predicate Probes(p: Pane, t: Tick) {
    !ShouldSkipForAuthority(t.authority, InputAt(p, t.now)) && ShouldProbeForegroundJob(InputAt(p, t.now))
  }

  function Checked(p: Pane, t: Tick): Pane {
    if Probes(p, t) then p.(lastCheck := t.now) else p
  }

  function AfterTick(p: Pane, t: Tick): Pane {
    var checked := Checked(p, t);
    if !t.compared then checked
    else checked.(acquisition := Synced(p.acquisition, None, None, false, t.contentChanged, t.now))
  }

  predicate StartsWindow(p: Pane, t: Tick) {
    t.compared && t.contentChanged && ShouldStart(p.acquisition, t.now)
  }

  function ProbeCount(p: Pane, ticks: seq<Tick>): nat
    decreases |ticks|
  {
    if ticks == [] then 0
    else (if Probes(p, ticks[0]) then 1 else 0) + ProbeCount(AfterTick(p, ticks[0]), ticks[1..])
  }

  /** The times at which a run opens windows. */
  function Starts(p: Pane, ticks: seq<Tick>): seq<nat>
    decreases |ticks|
  {
    if ticks == [] then []
    else (if StartsWindow(p, ticks[0]) then [ticks[0].now] else []) + Starts(AfterTick(p, ticks[0]), ticks[1..])
  }

  /** Times never run backwards. */
  predicate IsTimeline(from: nat, ticks: seq<Tick>)
    decreases |ticks|
  {
    ticks != [] ==> from <= ticks[0].now && IsTimeline(ticks[0].now, ticks[1..])
  }

  // ----- The budget of one window -----

  /** Probes a window can still cause after one at this age. */
  function LeftAfter(age: nat): nat {
    if age == 0 then 6
    else if age <= 500 * MILLISECOND then 5
    else if age <= 1_000 * MILLISECOND then 4
    else if age <= 2_000 * MILLISECOND then 3
    else if age <= 4_000 * MILLISECOND then 2
    else if age <= 6_000 * MILLISECOND then 1
    else 0
  }

  /** Probes the open window can still cause. */
  function Budget(p: Pane): (n: nat)
    ensures n <= 7
  {
    match p.acquisition.startedAt
    case None => 0
    case Some(started) => if p.lastCheck < started then 7 else LeftAfter(p.lastCheck - started)
  }

  lemma ProbeSpends(p: Pane, t: Tick)
    requires Probes(p, t)
    requires p.acquisition.startedAt.Some? ==> p.acquisition.startedAt.value <= t.now
    ensures Budget(Checked(p, t)) < Budget(p)
  {}

  /** Every clock reading the pane holds is in the past. */
  predicate IsPast(p: Pane, now: nat) {
    && p.lastCheck <= now
    && (p.acquisition.startedAt.Some? ==> p.acquisition.startedAt.value <= now)
    && (p.acquisition.lastContentChangeAt.Some? ==> p.acquisition.lastContentChangeAt.value <= now)
  }

  lemma TickSpends(p: Pane, t: Tick)
    requires IsPast(p, t.now)
    ensures IsPast(AfterTick(p, t), t.now)
    ensures (if Probes(p, t) then 1 else 0) + Budget(AfterTick(p, t)) <= Budget(p)
            + (if StartsWindow(p, t) then 7 else 0)
  {
    if Probes(p, t) {
      ProbeSpends(p, t);
    }
    hide Probes;
  }

  lemma PastLater(p: Pane, now: nat, later: nat)
    requires IsPast(p, now) && now <= later
    ensures IsPast(p, later)
  {}

  /** Probes are paid for by windows: seven for each one opened, plus what is left of the one open now. */
  lemma {:induction false} ProbesArePaid(p: Pane, ticks: seq<Tick>, from: nat)
    requires IsPast(p, from) && IsTimeline(from, ticks)
    ensures ProbeCount(p, ticks) <= Budget(p) + 7 * |Starts(p, ticks)|
    decreases |ticks|
  {
    if ticks != [] {
      var t := ticks[0];
      PastLater(p, from, t.now);
      TickSpends(p, t);
      ProbesArePaid(AfterTick(p, t), ticks[1..], t.now);
      hide AfterTick;
      hide Probes;
      hide Budget;
    }
  }

  /** One window causes at most seven probes, whatever the tick times. */
  lemma WindowBudget(p: Pane, ticks: seq<Tick>, from: nat)
    requires IsPast(p, from) && IsTimeline(from, ticks)
    requires Starts(p, ticks) == []
    ensures ProbeCount(p, ticks) <= 7
    ensures p.acquisition.startedAt.None? ==> ProbeCount(p, ticks) == 0
  {
    ProbesArePaid(p, ticks, from);
  }

  /** A pane whose window opened at 20 seconds, last checked at the given millisecond. */
  function OpenPane(last: nat): Pane {
    Pane(1, last * MILLISECOND, Acquisition(Some(20_000 * MILLISECOND), None))
  }

  function ProbeTicks(times: seq<nat>): seq<Tick> {
    seq(|times|, i requires 0 <= i < |times| => Tick(times[i] * MILLISECOND, false, false, false))
  }

  /** Inside the window, and late enough after the previous check. */
  predicate IsDue(last: nat, ms: nat) {
    20_000 <= ms <= 28_000 && last + (if ms <= 21_500 then 500 else 2_000) <= ms
  }

  predicate AllDue(last: nat, times: seq<nat>)
    decreases |times|
  {
    times != [] ==> IsDue(last, times[0]) && AllDue(times[0], times[1..])
  }

  lemma {:induction false} DueTicksProbe(last: nat, times: seq<nat>)
    requires AllDue(last, times)
    ensures ProbeCount(OpenPane(last), ProbeTicks(times)) == |times| && Starts(OpenPane(last), ProbeTicks(times)) == []
    decreases |times|
  {
    if times != [] {
      var ticks := ProbeTicks(times);
      assert ticks[1..] == ProbeTicks(times[1..]);
      DueTickProbes(last, times[0]);
      DueTicksProbe(times[0], times[1..]);
    }
  }

  lemma DueTickProbes(last: nat, ms: nat)
    requires IsDue(last, ms)
    ensures var t := Tick(ms * MILLISECOND, false, false, false);
            Probes(OpenPane(last), t) && AfterTick(OpenPane(last), t) == OpenPane(ms)
  {
    assert Since(ms * MILLISECOND, last * MILLISECOND) == (ms - last) * MILLISECOND;
    assert Since(ms * MILLISECOND, 20_000 * MILLISECOND) == (ms - 20_000) * MILLISECOND;
  }

  /** Seven is reached. */
  lemma BudgetIsTight()
    ensures exists last, times ::
              Starts(OpenPane(last), ProbeTicks(times)) == [] && ProbeCount(OpenPane(last), ProbeTicks(times)) == 7
  {
    var slow: seq<nat> := [23_500, 25_500, 27_500];
    assert AllDue(21_500, slow);
    var fast: seq<nat> := [20_500, 21_000, 21_500] + slow;
    assert fast[1..][1..][1..] == slow && AllDue(21_000, fast[1..][1..]);
    assert AllDue(20_000, fast);
    var times: seq<nat> := [20_000] + fast;
    assert times[1..] == fast;
    DueTicksProbe(10_000, times);
  }

  // ----- Windows lie apart -----

  /** Each time is more than one window after the one before it. */
  predicate IsSpread(times: seq<nat>) {
    forall i :: 0 <= i < |times| - 1 ==> times[i] + 8_000_000_000 < times[i + 1]
  }

  /** Nothing can start a window before the one opened at `last` is over. */
  predicate IsBehind(p: Pane, last: nat, now: nat) {
    p.acquisition.startedAt == Some(last) || (p.acquisition.startedAt.None? && last + WINDOW < now)
  }

  lemma TickStaysBehind(p: Pane, t: Tick, last: nat)
    requires IsBehind(p, last, t.now)
    ensures StartsWindow(p, t) ==> last + WINDOW < t.now && IsBehind(AfterTick(p, t), t.now, t.now)
    ensures !StartsWindow(p, t) ==> IsBehind(AfterTick(p, t), last, t.now)
  {
    hide Probes;
  }

  lemma IsBehindLater(p: Pane, last: nat, now: nat, later: nat)
    requires IsBehind(p, last, now) && now <= later
    ensures IsBehind(p, last, later)
  {}

  /** After a window opened at `last`, every further start is more than eight seconds after the
      one before it. */
  lemma {:induction false} StartsSpreadAfter(p: Pane, ticks: seq<Tick>, from: nat, last: nat)
    requires IsBehind(p, last, from) && IsTimeline(from, ticks)
    ensures IsSpread([last] + Starts(p, ticks))
    decreases |ticks|
  {
    if ticks != [] {
      var t := ticks[0];
      IsBehindLater(p, last, from, t.now);
      TickStaysBehind(p, t, last);
      hide AfterTick;
      hide StartsWindow;
      hide IsBehind;
      var rest := Starts(AfterTick(p, t), ticks[1..]);
      if StartsWindow(p, t) {
        StartsSpreadAfter(AfterTick(p, t), ticks[1..], t.now, t.now);
        SpreadCons(last, t.now, rest);
        assert [last] + ([t.now] + rest) == [last, t.now] + rest;
      } else {
        StartsSpreadAfter(AfterTick(p, t), ticks[1..], t.now, last);
        assert [] + rest == rest;
      }
    }
  }

  lemma SpreadCons(a: nat, b: nat, rest: seq<nat>)
    requires a + WINDOW < b && IsSpread([b] + rest)
    ensures IsSpread([a, b] + rest)
  {
    var s, t := [a, b] + rest, [b] + rest;
    assert s[0] == a && s[1] == b == t[0];
    forall i | 0 <= i < |s| - 1
      ensures s[i] + WINDOW < s[i + 1]
    {
      if i > 0 {
        assert s[i] == t[i - 1] && s[i + 1] == t[i - 1 + 1];
      }
    }
  }

  lemma NoneStartedIsOpen(p: Pane, t: Tick)
    ensures p.acquisition.startedAt.None? && !StartsWindow(p, t) ==> AfterTick(p, t).acquisition.startedAt.None?
    ensures StartsWindow(p, t) ==> AfterTick(p, t).acquisition.startedAt == Some(t.now)
  {}

  /** Windows opened by content changes alone begin more than eight seconds apart. */
  lemma {:induction false} WindowsLieApart(p: Pane, ticks: seq<Tick>, from: nat)
    requires IsTimeline(from, ticks)
    ensures IsSpread(Starts(p, ticks))
    decreases |ticks|
  {
    if p.acquisition.startedAt.Some? {
      var last := p.acquisition.startedAt.value;
      StartsSpreadAfter(p, ticks, from, last);
      var starts, all := Starts(p, ticks), [last] + Starts(p, ticks);
      assert forall i :: 0 <= i < |starts| ==> starts[i] == all[i + 1];
    } else if ticks != [] {
      var t := ticks[0];
      NoneStartedIsOpen(p, t);
      if StartsWindow(p, t) {
        StartsSpreadAfter(AfterTick(p, t), ticks[1..], t.now, t.now);
      } else {
        WindowsLieApart(AfterTick(p, t), ticks[1..], t.now);
        assert [] + Starts(AfterTick(p, t), ticks[1..]) == Starts(AfterTick(p, t), ticks[1..]);
      }
    }
  }

  // ----- Over any span of time -----

  lemma {:induction false} StartsWithin(p: Pane, ticks: seq<Tick>, from: nat, to: nat)
    requires IsTimeline(from, ticks)
    requires forall i :: 0 <= i < |ticks| ==> ticks[i].now <= to
    ensures forall i :: 0 <= i < |Starts(p, ticks)| ==> from <= Starts(p, ticks)[i] <= to
    decreases |ticks|
  {
    if ticks != [] {
      assert forall i :: 0 <= i < |ticks[1..]| ==> ticks[1..][i] == ticks[i + 1];
      StartsWithin(AfterTick(p, ticks[0]), ticks[1..], ticks[0].now, to);
    }
  }

  lemma {:induction false} SpreadTakesTime(times: seq<nat>, k: nat)
    requires IsSpread(times) && k < |times|
    ensures times[0] + k * WINDOW <= times[k]
  {
    if k > 0 {
      SpreadTakesTime(times, k - 1);
      assert times[k - 1] + WINDOW < times[k - 1 + 1];
    }
  }

  /** Over any span the probes of a stable unidentified pane are bounded by its length: seven for
      each eight seconds begun, plus seven for a window already open. */
  lemma ProbeRate(p: Pane, ticks: seq<Tick>, from: nat, to: nat)
    requires IsPast(p, from) && IsTimeline(from, ticks) && from <= to
    requires forall i :: 0 <= i < |ticks| ==> ticks[i].now <= to
    ensures ProbeCount(p, ticks) <= 7 + 7 * (1 + (to - from) / 8_000_000_000)
  {
    ProbesArePaid(p, ticks, from);
    WindowsLieApart(p, ticks, from);
    StartsWithin(p, ticks, from, to);
    var starts, windows := Starts(p, ticks), (to - from) / WINDOW;
    hide ProbeCount;
    hide Starts;
    hide IsSpread;
    if starts != [] {
      SpreadTakesTime(starts, |starts| - 1);
      WholeWindows(|starts| - 1, to - from);
      assert |starts| <= 1 + windows;
    }
  }

  lemma WholeWindows(k: nat, span: nat)
    requires k * WINDOW <= span
    ensures k <= span / WINDOW
  {}
}
