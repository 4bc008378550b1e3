/** When the foreground job of a pane is probed outside an acquisition window, to the nanosecond. */
module ProbeTimes {
  import opened Options
  import opened AgentProbes

  /** What the detector remembers of a pane whose agent and suppression do not change. */
  datatype Watch = Watch(agent: Option<Agent>, suppressed: Option<Agent>, lastGroup: Option<nat>,
                         probed: bool, lastCheck: nat, startedAt: Option<nat>)

  /** One turn of the detector: its time, the foreground group it finds, and whether a lifecycle
      authority is active. */
  datatype Look = Look(now: nat, group: Option<nat>, authority: bool)

  function InputOf(w: Watch, l: Look): ProbeInput {
    ProbeInput(w.agent, w.suppressed, l.group, w.lastGroup, w.probed,
               if w.startedAt.Some? then Some(Since(l.now, w.startedAt.value)) else None,
               false, false, Since(l.now, w.lastCheck))
  }

  predicate IsProbed(w: Watch, l: Look) {
    !ShouldSkipForAuthority(l.authority, InputOf(w, l)) && ShouldProbeForegroundJob(InputOf(w, l))
  }

  /** A probe notes its time and the group it saw. */
  function AfterLook(w: Watch, l: Look): Watch {
    if IsProbed(w, l) then w.(probed := true, lastCheck := l.now, lastGroup := l.group) else w
  }

  /** The turns that probe. */
  function Probed(w: Watch, looks: seq<Look>): seq<nat>
    decreases |looks|
  {
    if looks == [] then []
    else (if IsProbed(w, looks[0]) then [looks[0].now] else []) + Probed(AfterLook(w, looks[0]), looks[1..])
  }

  predicate IsForward(from: nat, looks: seq<Look>)
    decreases |looks|
  {
    looks != [] ==> from <= looks[0].now && IsForward(looks[0].now, looks[1..])
  }

  // ----- At intervals -----

  /** Every two probes in a row, the first of them at `last`, lie at least `gap` apart. */
  predicate AreApart(last: nat, times: seq<nat>, gap: nat) {
    forall i :: 0 <= i < |times| ==> (if i == 0 then last else times[i - 1]) + gap <= times[i]
  }

  /** The turn probes, or comes less than `gap` after a probe. */
  predicate IsServed(now: nat, last: nat, times: seq<nat>, gap: nat) {
    || now in times
    || last <= now < last + gap
    || exists i :: 0 <= i < |times| && times[i] <= now < times[i] + gap
  }

  /** Probes come exactly as often as the gap allows: never sooner, and at the first turn after it. */
  predicate IsExactly(looks: seq<Look>, last: nat, times: seq<nat>, gap: nat) {
    && AreApart(last, times, gap)
    && forall i :: 0 <= i < |looks| ==> IsServed(looks[i].now, last, times, gap)
  }

  lemma ServedLater(now: nat, last: nat, first: nat, times: seq<nat>, gap: nat)
    requires IsServed(now, first, times, gap)
    ensures IsServed(now, last, [first] + times, gap)
  {
    var all := [first] + times;
    if now in times {
      assert now in all;
    } else if first <= now < first + gap {
      assert all[0] == first;
    } else {
      var i :| 0 <= i < |times| && times[i] <= now < times[i] + gap;
      assert all[i + 1] == times[i];
    }
  }

  lemma ApartLater(last: nat, first: nat, times: seq<nat>, gap: nat)
    requires AreApart(first, times, gap) && last + gap <= first
    ensures AreApart(last, [first] + times, gap)
  {
    var all := [first] + times;
    forall i | 0 <= i < |all|
      ensures (if i == 0 then last else all[i - 1]) + gap <= all[i]
    {
      if i > 0 {
        var before := if i - 1 == 0 then first else times[i - 2];
        assert before + gap <= times[i - 1];
        assert all[i] == times[i - 1] && all[i - 1] == before;
      }
    }
  }

  /** A turn that probes if and only if the gap has passed, then the others. */
  lemma OneMoreTurn(looks: seq<Look>, last: nat, times: seq<nat>, gap: nat)
    requires looks != [] && last <= looks[0].now
    requires var now := looks[0].now;
             if last + gap <= now then times != [] && times[0] == now && IsExactly(looks[1..], now, times[1..], gap)
             else IsExactly(looks[1..], last, times, gap)
    ensures IsExactly(looks, last, times, gap)
  {
    hide IsServed;
    var now := looks[0].now;
    if last + gap <= now {
      assert times == [now] + times[1..];
      ApartLater(last, now, times[1..], gap);
      forall i | 0 <= i < |looks|
        ensures IsServed(looks[i].now, last, times, gap)
      {
        if i == 0 {
          ServedNow(now, last, times, gap);
        } else {
          assert looks[i] == looks[1..][i - 1];
          ServedLater(looks[i].now, last, now, times[1..], gap);
        }
      }
    } else {
      forall i | 0 <= i < |looks|
        ensures IsServed(looks[i].now, last, times, gap)
      {
        if i == 0 {
          ServedNow(now, last, times, gap);
        } else {
          assert looks[i] == looks[1..][i - 1];
        }
      }
    }
  }

  lemma ServedNow(now: nat, last: nat, times: seq<nat>, gap: nat)
    requires last <= now && (last + gap <= now ==> now in times)
    ensures IsServed(now, last, times, gap)
  {}

  /** The window, if one was ever opened, is over at every turn. */
  predicate IsOutsideWindow(w: Watch, looks: seq<Look>) {
    w.startedAt.Some? ==> forall i :: 0 <= i < |looks| ==> looks[i].now > w.startedAt.value + 8_000_000_000
  }

  /** The group never changes and no authority is active. */
  predicate IsQuiet(w: Watch, looks: seq<Look>) {
    forall i :: 0 <= i < |looks| ==> looks[i].group == w.lastGroup && !looks[i].authority
  }

  lemma RestIsLike(w: Watch, looks: seq<Look>)
    requires looks != [] && IsOutsideWindow(w, looks) && IsQuiet(w, looks)
    ensures IsOutsideWindow(AfterLook(w, looks[0]), looks[1..]) && IsQuiet(AfterLook(w, looks[0]), looks[1..])
  {
    assert forall i :: 0 <= i < |looks[1..]| ==> looks[1..][i] == looks[i + 1];
    assert looks[0].group == w.lastGroup;
    hide IsProbed;
  }

  /** A pane with a known agent, outside its window and with a stable group, is probed exactly every
      five seconds: an agent that exits is noticed, and not at every turn. */
  lemma {:induction false} IdentifiedEveryFiveSeconds(w: Watch, looks: seq<Look>)
    requires w.agent.Some? && w.suppressed.None?
    requires IsForward(w.lastCheck, looks) && IsOutsideWindow(w, looks) && IsQuiet(w, looks)
    ensures IsExactly(looks, w.lastCheck, Probed(w, looks), 5_000_000_000)
    decreases |looks|
  {
    if looks != [] {
      var next := AfterLook(w, looks[0]);
      IdentifiedTurn(w, looks);
      RestIsLike(w, looks);
      LaterForward(w.lastCheck, looks, next.lastCheck);
      hide IsProbed;
      hide IsExactly;
      IdentifiedEveryFiveSeconds(next, looks[1..]);
      PiecesOf(w, looks);
      OneMoreTurn(looks, w.lastCheck, Probed(w, looks), 5_000_000_000);
    } else {
      NoTurns(w.lastCheck, 5_000_000_000);
    }
  }

  lemma NoTurns(last: nat, gap: nat)
    ensures IsExactly([], last, [], gap)
  {}

  lemma PiecesOf(w: Watch, looks: seq<Look>)
    requires looks != []
    ensures var rest := Probed(AfterLook(w, looks[0]), looks[1..]);
            if IsProbed(w, looks[0])
            then Probed(w, looks) != [] && Probed(w, looks)[0] == looks[0].now && Probed(w, looks)[1..] == rest
            else Probed(w, looks) == rest
  {
    hide IsProbed;
    hide AfterLook;
  }

  lemma LaterForward(from: nat, looks: seq<Look>, last: nat)
    requires looks != [] && IsForward(from, looks) && last <= looks[0].now
    ensures IsForward(last, looks[1..])
  {}

  lemma IdentifiedTurn(w: Watch, looks: seq<Look>)
    requires looks != [] && w.agent.Some? && w.suppressed.None?
    requires w.lastCheck <= looks[0].now && IsOutsideWindow(w, looks) && IsQuiet(w, looks)
    ensures IsProbed(w, looks[0]) <==> w.lastCheck + 5_000_000_000 <= looks[0].now
  {
    assert looks[0].group == w.lastGroup && !looks[0].authority;
    assert w.startedAt.Some? ==> looks[0].now > w.startedAt.value + 8_000_000_000;
  }

  /** An unidentified pane that has no foreground group is probed exactly every thirty seconds. */
  lemma {:induction false} GrouplessEveryThirtySeconds(w: Watch, looks: seq<Look>)
    requires w.agent.None? && w.suppressed.None? && w.lastGroup.None? && w.probed
    requires IsForward(w.lastCheck, looks) && IsOutsideWindow(w, looks) && IsQuiet(w, looks)
    ensures IsExactly(looks, w.lastCheck, Probed(w, looks), 30_000_000_000)
    decreases |looks|
  {
    if looks != [] {
      var next := AfterLook(w, looks[0]);
      GrouplessTurn(w, looks);
      RestIsLike(w, looks);
      LaterForward(w.lastCheck, looks, next.lastCheck);
      assert next.lastGroup.None? by {
        assert looks[0].group == w.lastGroup;
      }
      hide IsProbed;
      hide IsExactly;
      GrouplessEveryThirtySeconds(next, looks[1..]);
      PiecesOf(w, looks);
      OneMoreTurn(looks, w.lastCheck, Probed(w, looks), 30_000_000_000);
    } else {
      NoTurns(w.lastCheck, 30_000_000_000);
    }
  }

  lemma GrouplessTurn(w: Watch, looks: seq<Look>)
    requires looks != [] && w.agent.None? && w.suppressed.None? && w.lastGroup.None? && w.probed
    requires w.lastCheck <= looks[0].now && IsOutsideWindow(w, looks) && IsQuiet(w, looks)
    ensures IsProbed(w, looks[0]) <==> w.lastCheck + 30_000_000_000 <= looks[0].now
  {
    assert looks[0].group == w.lastGroup && !looks[0].authority;
    assert w.startedAt.Some? ==> looks[0].now > w.startedAt.value + 8_000_000_000;
  }

  /** With a stable group an unidentified pane is not probed at all outside its window. */
  lemma {:induction false} KnownGroupNeverProbed(w: Watch, looks: seq<Look>)
    requires w.agent.None? && w.suppressed.None? && w.lastGroup.Some? && w.probed
    requires IsOutsideWindow(w, looks) && IsQuiet(w, looks)
    ensures Probed(w, looks) == []
    decreases |looks|
  {
    if looks != [] {
      assert looks[0].group == w.lastGroup && !looks[0].authority;
      assert w.startedAt.Some? ==> looks[0].now > w.startedAt.value + 8_000_000_000;
      RestIsLike(w, looks);
      KnownGroupNeverProbed(AfterLook(w, looks[0]), looks[1..]);
    }
  }

  // ----- Suppressed panes -----

  /** The turns that find another group than the turn before, and the first one if the pane was never
      probed. */
  function GroupChanges(last: Option<nat>, probed: bool, looks: seq<Look>): seq<nat>
    decreases |looks|
  {
    if looks == [] then []
    else
      (if !probed || looks[0].group != last then [looks[0].now] else [])
        + GroupChanges(looks[0].group, true, looks[1..])
  }

  /** A pane whose agent is being released is probed on its first turn and on a change of its group,
      and at no other time, whoever has authority. */
  lemma {:induction false} SuppressedOnlyOnChange(w: Watch, looks: seq<Look>)
    requires w.suppressed.Some?
    ensures Probed(w, looks) == GroupChanges(w.lastGroup, w.probed, looks)
    decreases |looks|
  {
    if looks != [] {
      assert IsProbed(w, looks[0]) <==> !w.probed || looks[0].group != w.lastGroup;
      hide IsProbed;
      SuppressedOnlyOnChange(AfterLook(w, looks[0]), looks[1..]);
    }
  }

  // ----- At once -----

  /** Whatever else holds, a changed group and either pending flag ask for a probe at once, and so does
      the first turn of a pane without an agent or with a suppressed one. */
  lemma ProbesAtOnce(i: ProbeInput)
    ensures i.foregroundPgid != i.lastForegroundPgid ==> ShouldProbeForegroundJob(i)
    ensures i.pendingForegroundShellClear || i.pendingRestoreProbe ==> ShouldProbeForegroundJob(i)
    ensures !i.hasProcessProbe && (i.currentAgent.None? || i.suppressedAgent.Some?) ==> ShouldProbeForegroundJob(i)
  {}

  /** In a window, unless the pane is suppressed, half a second after the last check is enough while the
      window is at most a second and a half old, and two seconds while it is at most eight. */
  lemma ProbesInWindow(i: ProbeInput)
    requires i.suppressedAgent.None? && i.acquisitionAge.Some? && i.acquisitionAge.value <= 8_000_000_000
    requires i.hasProcessProbe && i.foregroundPgid == i.lastForegroundPgid
    requires !i.pendingForegroundShellClear && !i.pendingRestoreProbe
    ensures ShouldProbeForegroundJob(i) <==>
              i.elapsedSinceProcessCheck
              >= if i.acquisitionAge.value <= 1_500_000_000 then 500_000_000 else 2_000_000_000
  {}

  /** An authority holds a probe off exactly when the pane was probed before, its group is the same, no
      exit of its job is pending and nothing is suppressed. */
  lemma AuthorityHoldsOff(i: ProbeInput)
    ensures !ShouldSkipForAuthority(false, i)
    ensures ShouldSkipForAuthority(true, i) <==>
              && i.hasProcessProbe && i.foregroundPgid == i.lastForegroundPgid
              && !i.pendingForegroundShellClear && i.suppressedAgent.None?
  {}

  // ----- Windows -----

  /** A change of content opens a window if none was opened, or the last one began more than eight
      seconds ago and the content had been still for two; without a change, stillness after the window
      forgets it. An agent, a suppression or a change of group leaves it alone. */
  lemma WindowsExactly(a: Acquisition, current: Option<Agent>, suppressed: Option<Agent>,
                       groupChanged: bool, contentChanged: bool, now: nat)
    requires a.startedAt.Some? ==> a.startedAt.value <= now
    requires a.lastContentChangeAt.Some? ==> a.lastContentChangeAt.value <= now
    ensures var o := Synced(a, current, suppressed, groupChanged, contentChanged, now);
            var isOver := a.startedAt.Some? && a.startedAt.value + 8_000_000_000 < now;
            var isStill := a.lastContentChangeAt.Some? && a.lastContentChangeAt.value + 2_000_000_000 <= now;
            if current.Some? || suppressed.Some? || groupChanged then o == a
            else if contentChanged then
              && o.lastContentChangeAt == Some(now)
              && (o.startedAt ==
                  if a.startedAt.None? || (isOver && (isStill || a.lastContentChangeAt.None?)) then Some(now)
                  else a.startedAt)
            else o == if isOver && isStill then Acquisition(None, None) else a
  {}
}
