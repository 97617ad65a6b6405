/** The life of one service over whole runs: which events can end an operator's stop, and when a
    respawn service comes back. */
module ServiceLives {
  import opened Basics
  import opened ServiceStates
  import opened ServiceManagers
  import RestartTimers

  /** What can happen to a service: a command, a registration of its process, the loss of its
      connection, a second of its group's timers. */
  datatype Happening =
    | Commanded(action: Action, systemOk: bool, sendOk: bool)
    | Attached
    | Lost(systemOk: bool)
    | Ticked(group: Group, spawnOk: bool, systemOk: bool, sendOk: bool)

  /** A registration needs a service that is started or stopped, a loss one that is running. */
  function FlagStep(f: Flags, groupDisabled: bool, h: Happening): (r: Flags)
    requires Consistent(f) && (groupDisabled ==> Disabled in f)
    ensures Consistent(r) && (groupDisabled ==> Disabled in r)
  {
    match h
    case Commanded(a, systemOk, sendOk) => Command(a, f, groupDisabled, systemOk, sendOk)
    case Attached => if Attachable(f) then Attach(f) else f
    case Lost(systemOk) => if Running in f then Detach(f, systemOk) else f
    case Ticked(g, spawnOk, systemOk, sendOk) => TickFlags(g, f, spawnOk, systemOk, sendOk)
  }

  function Life(f: Flags, groupDisabled: bool, run: seq<Happening>): (r: Flags)
    requires Consistent(f) && (groupDisabled ==> Disabled in f)
    ensures Consistent(r) && (groupDisabled ==> Disabled in r)
  {
    if run == [] then f else FlagStep(Life(f, groupDisabled, run[..|run| - 1]), groupDisabled, run[|run| - 1])
  }

  predicate RestartsNow(g: Group) { g.timed && RestartDue(g) }

  /** The event may start a service that its operator stopped: a start or restart command, an enable
      command, or the restart time of its group. */
  predicate MayWake(h: Happening) {
    match h
    case Commanded(a, _, _) => a in {DoStart, DoRestart, DoEnable}
    case Ticked(g, _, _, _) => RestartsNow(g)
    case _ => false
  }

  predicate Undisturbed(run: seq<Happening>) { forall i :: 0 <= i < |run| ==> !MayWake(run[i]) }

  /** A service that its operator stopped stays stopped, whatever registers, fails or expires, until
      one of the waking events. */
  lemma {:induction false} OperatorStopLasts(f: Flags, groupDisabled: bool, run: seq<Happening>)
    requires Consistent(f) && (groupDisabled ==> Disabled in f) && AdminStopped in f && Undisturbed(run)
    ensures AdminStopped in Life(f, groupDisabled, run)
  {
    if run != [] {
      OperatorStopLasts(f, groupDisabled, run[..|run| - 1]);
      assert !MayWake(run[|run| - 1]);
    }
  }

  /** A waking event does end the stop of an enabled service whose command succeeds. */
  lemma WakingStarts(f: Flags, h: Happening)
    requires Consistent(f) && AdminStopped in f && Enabled in f && Wait !in f
    requires match h case Commanded(_, ok, _) => ok case Ticked(_, _, ok, _) => ok case _ => true
    ensures Started in FlagStep(f, false, h) <==> MayWake(h) && !(h.Commanded? && h.action == DoEnable)
  {
  }

  /** While a group is disabled its services never start. */
  lemma {:induction false} DisabledGroupStartsNothing(f: Flags, run: seq<Happening>)
    requires Consistent(f) && Disabled in f && Started !in f
    ensures Started !in Life(f, true, run) && Disabled in Life(f, true, run)
  {
    if run != [] { DisabledGroupStartsNothing(f, run[..|run| - 1]); }
  }

  /** The service is not given an enable command. */
  predicate NeverEnabled(run: seq<Happening>) {
    forall i :: 0 <= i < |run| ==> !(run[i].Commanded? && run[i].action == DoEnable)
  }

  /** A disabled service that has not been started is not started by anything but an enable command,
      though a process started by hand may still register. */
  lemma {:induction false} DisabledNeverStarts(f: Flags, groupDisabled: bool, run: seq<Happening>)
    requires Consistent(f) && (groupDisabled ==> Disabled in f) && Disabled in f && Started !in f && NeverEnabled(run)
    ensures var r := Life(f, groupDisabled, run); Disabled in r && Started !in r
  {
    if run != [] {
      var h := run[|run| - 1];
      DisabledNeverStarts(f, groupDisabled, run[..|run| - 1]);
      assert !(h.Commanded? && h.action == DoEnable);
    }
  }

  /** If it is down and none registers, nothing but an enable command changes it at all. */
  lemma {:induction false} DisabledStandsStill(f: Flags, groupDisabled: bool, run: seq<Happening>)
    requires Consistent(f) && (groupDisabled ==> Disabled in f) && Disabled in f && IsStopped(f) && NeverEnabled(run)
    requires forall i :: 0 <= i < |run| ==> !run[i].Attached?
    ensures Life(f, groupDisabled, run) == f
  {
    if run != [] {
      var h := run[|run| - 1];
      DisabledStandsStill(f, groupDisabled, run[..|run| - 1]);
      assert !(h.Commanded? && h.action == DoEnable) && !h.Attached?;
    }
  }

  /** The flags of a service after n seconds of the timers of its group, every start succeeding. */
  function Seconds(g: Group, f: Flags, n: nat): (r: Flags)
    requires Consistent(f)
    ensures Consistent(r)
  {
    if n == 0 then f else TickFlags(GroupAfter(g, n - 1), Seconds(g, f, n - 1), true, true, true)
  }

  predicate Respawns(f: Flags) { Respawn in f && Wait !in f && Disabled !in f }

  /** The seconds before the next respawn of the group. */
  function DueIn(g: Group): nat { if g.respawnTicks <= g.respawnPeriod then g.respawnPeriod - g.respawnTicks else 0 }

  lemma {:induction false} UntilDue(g: Group, f: Flags, n: nat)
    requires g.timed && !g.disabled && n <= DueIn(g)
    requires Consistent(f) && Respawns(f) && Stopped in f
    ensures var h := GroupAfter(g, n);
            h.timed && !h.disabled && h.respawnPeriod == g.respawnPeriod && h.respawnTicks == g.respawnTicks + n
    ensures var r := Seconds(g, f, n); Respawns(r) && (Started in r || Stopped in r)
  {
    if n > 0 { UntilDue(g, f, n - 1); }
  }

  /** A group without timers never moves, nor do its services. */
  lemma {:induction false} UntimedStandsStill(g: Group, f: Flags, n: nat)
    requires !g.timed && Consistent(f)
    ensures GroupAfter(g, n) == g && Seconds(g, f, n) == f
  {
    if n > 0 { UntimedStandsStill(g, f, n - 1); }
  }

  /** A respawn service of an enabled group that stopped by itself is started again within the respawn
      period and one second more exactly if the group has timers; otherwise it never is. */
  lemma RespawnedInTime(g: Group, f: Flags)
    requires !g.disabled && Consistent(f) && Respawns(f) && Stopped in f
    ensures Started in Seconds(g, f, DueIn(g) + 1) <==> g.timed
    ensures (exists n :: Started in Seconds(g, f, n)) <==> g.timed
  {
    hide TickFlags, GroupAfter, Seconds, Consistent, Respawns;
    StoppedNotStarted(f);
    var n := DueIn(g);
    if g.timed {
      UntilDue(g, f, n);
      DueStarts(GroupAfter(g, n), Seconds(g, f, n));
      OneSecond(g, f, n);
    } else {
      forall n ensures Seconds(g, f, n) == f { UntimedStandsStill(g, f, n); }
    }
  }

  lemma StoppedNotStarted(f: Flags)
    requires Consistent(f) && Stopped in f
    ensures Started !in f
  {
  }

  lemma OneSecond(g: Group, f: Flags, n: nat)
    requires Consistent(f)
    ensures Seconds(g, f, n + 1) == TickFlags(GroupAfter(g, n), Seconds(g, f, n), true, true, true)
    ensures GroupAfter(g, n + 1) == TickGroup(GroupAfter(g, n))
  {
  }

  lemma DueStarts(g: Group, f: Flags)
    requires g.timed && !g.disabled && g.respawnTicks >= g.respawnPeriod
    requires Consistent(f) && Respawns(f) && (Started in f || Stopped in f)
    ensures Started in TickFlags(g, f, true, true, true)
  {
  }

  /** The respawn of an enabled group with timers is due every period and one second. */
  lemma {:induction false} RespawnIsPeriodic(g: Group, n: nat)
    requires g.timed && !g.disabled && g.respawnTicks <= g.respawnPeriod
    ensures var r := GroupAfter(g, n);
            && r.timed && !r.disabled && r.respawnPeriod == g.respawnPeriod
            && r.respawnTicks == (g.respawnTicks + n) % (g.respawnPeriod + 1)
            && (RespawnDue(r) <==> (g.respawnTicks + n + 1) % (g.respawnPeriod + 1) == 0)
  {
    var p := g.respawnPeriod + 1;
    if n == 0 {
      Wraps(g.respawnTicks, p, 0, g.respawnTicks);
    } else {
      RespawnIsPeriodic(g, n - 1);
    }
    var k := g.respawnTicks + n;
    if n > 0 { NextResidue(k - 1, p); }
    NextResidue(k, p);
  }

  /** From its creation: at every (period + 1)-th timer call. */
  lemma RespawnsOnTime(stats: bool, now: nat, restartTime: nat, period: nat, n: nat)
    requires now < RestartTimers.MAX_SECS_PER_DAY && (stats || restartTime > 0)
    ensures RespawnDue(GroupAfter(NewGroup(false, stats, now, restartTime, period), n)) <==> (n + 1) % (period + 1) == 0
  {
    hide GroupAfter, RespawnDue;
    RespawnIsPeriodic(NewGroup(false, stats, now, restartTime, period), n);
  }

  lemma Wraps(k: nat, p: nat, q: nat, r: nat)
    requires p > 0 && k == q * p + r && r < p
    ensures k % p == r
  {
    Quotient(k, p, q, r);
  }

  lemma NextResidue(k: nat, p: nat)
    requires p > 0
    ensures (k + 1) % p == if k % p == p - 1 then 0 else k % p + 1
  {
    var q: int, r: int := k / p, k % p;
    assert k == q * p + r;
    if r == p - 1 {
      assert k + 1 == (q + 1) * p + 0;
      Quotient(k + 1, p, q + 1, 0);
    } else {
      Quotient(k + 1, p, q, r + 1);
    }
  }

  /** In terms of the configuration: the services of an enabled group respawn exactly if it has a
      statistics period or a restart time. */
  lemma RespawnsIfConfigured(stats: bool, now: nat, restartTime: nat, period: nat, f: Flags)
    requires now < RestartTimers.MAX_SECS_PER_DAY && Consistent(f) && Respawns(f) && Stopped in f
    ensures var g := NewGroup(false, stats, now, restartTime, period);
            && (Started in Seconds(g, f, period + 1) <==> stats || restartTime > 0)
            && ((exists n :: Started in Seconds(g, f, n)) <==> stats || restartTime > 0)
  {
    hide Seconds, Consistent, Respawns;
    RespawnedInTime(NewGroup(false, stats, now, restartTime, period), f);
  }

  /** A respawn service that loses its connection without an operator's stop is back in that time,
      exactly if its group has timers. */
  lemma LostAndRespawned(g: Group, f: Flags, systemOk: bool)
    requires !g.disabled
    requires Consistent(f) && Respawns(f) && Running in f && AdminStopping !in f && RestartPending !in f
    ensures Started in Seconds(g, Detach(f, systemOk), DueIn(g) + 1) <==> g.timed
  {
    hide Seconds, GroupAfter;
    RespawnedInTime(g, Detach(f, systemOk));
  }

  // ----- the manager's services live such lives -----

  lemma {:induction false} LifeAppend(f: Flags, gd: bool, a: seq<Happening>, b: seq<Happening>)
    requires Consistent(f) && (gd ==> Disabled in f)
    ensures Life(f, gd, a + b) == Life(Life(f, gd, a), gd, b)
    decreases |b|
  {
    hide FlagStep, Consistent;
    if b == [] {
      assert a + b == a;
    } else {
      assert (a + b)[..|a + b| - 1] == a + b[..|b| - 1];
      LifeAppend(f, gd, a, b[..|b| - 1]);
    }
  }

  lemma LifeOne(f: Flags, gd: bool, h: Happening)
    requires Consistent(f) && (gd ==> Disabled in f)
    ensures Life(f, gd, []) == f && Life(f, gd, [h]) == FlagStep(f, gd, h)
  {
    hide FlagStep, Consistent;
    assert [h][..0] == [];
  }

  /** What happened to service i in an event that left it with flags r. */
  ghost function Happened(groups: seq<Group>, servs: seq<Serv>, e: Event, i: nat, r: Flags): seq<Happening>
    requires i < |servs| && ServOk(groups, servs[i])
  {
    var f, g := servs[i].flags, groups[servs[i].group];
    if e.Second? then [Ticked(g, e.spawn(i), e.system(i), e.send(i))]
    else if !e.Data? || r == f then []
    else
      var input := e.input;
      if input.Asked? && Addressed(input.target, servs, i) &&
         r == Command(input.action, f, g.disabled, input.system(i), input.send(i))
      then [Commanded(input.action, input.system(i), input.send(i))]
      else if Running in f then [Lost(e.restartOk)]
      else if input.Registration? && input.sendOk then [Attached]
      else [Attached, Lost(e.restartOk)]
  }

  lemma HappenedIsLife(groups: seq<Group>, servs: seq<Serv>, conns: map<nat, Conn>, e: Event, i: nat, r: Serv)
    requires i < |servs| && ServOk(groups, servs[i]) && EventMoved(groups, servs, conns, e, i, r)
    ensures Life(servs[i].flags, groups[servs[i].group].disabled, Happened(groups, servs, e, i, r.flags)) == r.flags
  {
    hide Life, Command, TickFlags, Consistent;
    var f, gd := servs[i].flags, groups[servs[i].group].disabled;
    var hs := Happened(groups, servs, e, i, r.flags);
    if |hs| == 2 {
      LifeOne(f, gd, hs[0]);
      LifeOne(FlagStep(f, gd, hs[0]), gd, hs[1]);
      LifeAppend(f, gd, [hs[0]], [hs[1]]);
      assert hs == [hs[0]] + [hs[1]];
      AttachedRuns(f);
    } else {
      LifeOne(f, gd, if |hs| == 1 then hs[0] else Attached);
      assert hs == if |hs| == 1 then [hs[0]] else [];
      NotBoth(f);
    }
  }

  lemma AttachedRuns(f: Flags)
    requires Consistent(f) && Attachable(f)
    ensures Running in Attach(f)
  {
  }

  lemma NotBoth(f: Flags)
    requires Consistent(f)
    ensures !(Running in f && Attachable(f))
  {
  }

  /** The target may include the service. */
  predicate MayAddress(t: Target, name: string, group: nat) {
    match t
    case OneService(n) => n == name
    case OneGroup(g) => g == group
    case All => true
  }

  /** A client's start, restart or enable command that may reach the service. */
  predicate Wakes(e: Event, name: string, group: nat) {
    && e.Data? && e.input.Asked? && e.input.action in {DoStart, DoRestart, DoEnable}
    && MayAddress(e.input.target, name, group)
  }

  /** A client's enable command that may reach the service. */
  predicate Enables(e: Event, name: string, group: nat) {
    e.Data? && e.input.Asked? && e.input.action == DoEnable && MayAddress(e.input.target, name, group)
  }

  lemma HappenedUndisturbed(groups: seq<Group>, servs: seq<Serv>, e: Event, i: nat, r: Flags)
    requires i < |servs| && ServOk(groups, servs[i]) && !Wakes(e, servs[i].name, servs[i].group)
    requires e.Second? ==> !RestartsNow(groups[servs[i].group])
    ensures Undisturbed(Happened(groups, servs, e, i, r))
  {
    hide Command, Consistent;
  }

  lemma HappenedNeverEnabled(groups: seq<Group>, servs: seq<Serv>, e: Event, i: nat, r: Flags)
    requires i < |servs| && ServOk(groups, servs[i]) && !Enables(e, servs[i].name, servs[i].group)
    ensures NeverEnabled(Happened(groups, servs, e, i, r))
  {
    hide Command, Consistent;
  }

  lemma NeverEnabledAppend(a: seq<Happening>, b: seq<Happening>)
    requires NeverEnabled(a) && NeverEnabled(b)
    ensures NeverEnabled(a + b)
  {
  }

  /** The timer calls of a run. */
  function SecondsIn(events: seq<Event>): nat {
    if events == [] then 0 else SecondsIn(events[..|events| - 1]) + Tally(events[|events| - 1].Second?)
  }

  /** No client's command of the run may start the service of that name and group, and no timer call of
      it falls on the restart time of the group, which is g before the run. */
  ghost predicate Calm(events: seq<Event>, name: string, group: nat, g: Group) {
    forall k :: 0 <= k < |events| ==>
      !Wakes(events[k], name, group) && (events[k].Second? ==> !RestartsNow(GroupAfter(g, SecondsIn(events[..k]))))
  }

  /** Over any run of the manager's events the flags of service i are a life of what happened to it; so
      a service that its operator stopped stays stopped until a client's start, restart or enable
      command may reach it, or its group restarts, and a disabled one that is down is not started until
      an enable command may reach it. */
  method RunLife(m: Manager, events: seq<Event>, ghost i: nat) returns (ghost life: seq<Happening>)
    requires m.Valid() && i < |m.servs|
    modifies m
    ensures m.Valid() && i < |m.servs| && ServOk(old(m.groups), old(m.servs)[i])
    ensures m.servs[i].flags == Life(old(m.servs)[i].flags, old(m.groups)[old(m.servs)[i].group].disabled, life)
    ensures Calm(events, old(m.servs)[i].name, old(m.servs)[i].group, old(m.groups)[old(m.servs)[i].group]) ==>
            Undisturbed(life) && (AdminStopped in old(m.servs)[i].flags ==> AdminStopped in m.servs[i].flags)
    ensures m.servs[i].name == old(m.servs)[i].name && m.servs[i].group == old(m.servs)[i].group
    ensures (forall k :: 0 <= k < |events| ==> !Enables(events[k], m.servs[i].name, m.servs[i].group)) ==>
            NeverEnabled(life) &&
            (Disabled in old(m.servs)[i].flags && Started !in old(m.servs)[i].flags ==>
             Disabled in m.servs[i].flags && Started !in m.servs[i].flags)
  {
    hide Life, Consistent, EventMoved, Happened, Undisturbed, NeverEnabled, Enables, Wakes, Linked, Typed, Fresh;
    hide GroupAfter, SecondsIn;
    hide RestartsNow, TickGroup, Command, TickFlags;
    ghost var s, g := m.servs[i], m.groups[m.servs[i].group];
    ghost var calm := Calm(events, s.name, s.group, g);
    ghost var unable := forall k :: 0 <= k < |events| ==> !Enables(events[k], s.name, s.group);
    life := [];
    assert ServOk(m.groups, s);
    LifeOne(s.flags, g.disabled, Attached);
    NothingDisturbs();
    NoSeconds(g, events);
    for k := 0 to |events|
      invariant m.Valid() && i < |m.servs| && s.group < |m.groups|
      invariant m.servs[i].name == s.name && m.servs[i].group == s.group
      invariant m.groups[s.group] == GroupAfter(g, SecondsIn(events[..k])) && m.groups[s.group].disabled == g.disabled
      invariant m.servs[i].flags == Life(s.flags, g.disabled, life)
      invariant calm ==> Undisturbed(life)
      invariant unable ==> NeverEnabled(life)
    {
      ghost var groups, servs, conns := m.groups, m.servs, m.conns;
      Handle(m, events[k]);
      assert ServOk(groups, servs[i]);
      NextSecond(g, events, k);
      TickKeepsGroup(groups[s.group]);
      ghost var hs := Happened(groups, servs, events[k], i, m.servs[i].flags);
      HappenedIsLife(groups, servs, conns, events[k], i, m.servs[i]);
      KeepsName(groups, servs, conns, events[k], i, m.servs[i]);
      LifeAppend(s.flags, g.disabled, life, hs);
      if calm {
        HappenedUndisturbed(groups, servs, events[k], i, m.servs[i].flags);
        UndisturbedAppend(life, hs);
      }
      if unable {
        HappenedNeverEnabled(groups, servs, events[k], i, m.servs[i].flags);
        NeverEnabledAppend(life, hs);
      }
      life := life + hs;
    }
    if unable && Disabled in s.flags && Started !in s.flags { DisabledNeverStarts(s.flags, g.disabled, life); }
    if calm && AdminStopped in s.flags { OperatorStopLasts(s.flags, g.disabled, life); }
  }

  lemma NoSeconds(g: Group, events: seq<Event>)
    ensures GroupAfter(g, SecondsIn(events[..0])) == g
  {
  }

  lemma NextSecond(g: Group, events: seq<Event>, k: nat)
    requires k < |events|
    ensures var h := GroupAfter(g, SecondsIn(events[..k]));
            GroupAfter(g, SecondsIn(events[..k + 1])) == if events[k].Second? then TickGroup(h) else h
  {
    hide TickGroup;
    assert events[..k + 1][..k] == events[..k];
  }

  lemma TickKeepsGroup(g: Group)
    ensures TickGroup(g).disabled == g.disabled && TickGroup(g).timed == g.timed
  {
  }

  /** n timer calls of the manager, every start and send succeeding. */
  method LetSecondsPass(m: Manager, n: nat, ghost i: nat)
    requires m.Valid() && i < |m.servs|
    modifies m
    ensures m.Valid() && i < |m.servs| && ServOk(old(m.groups), old(m.servs)[i])
    ensures m.servs[i].flags == Seconds(old(m.groups)[old(m.servs)[i].group], old(m.servs)[i].flags, n)
  {
    hide Consistent, Linked, Typed, Fresh, GroupAfter, Seconds, TickGroup, TickFlags;
    ghost var s, g := m.servs[i], m.groups[m.servs[i].group];
    assert ServOk(m.groups, s);
    SecondStart(g, s.flags);
    for k := 0 to n
      invariant m.Valid() && i < |m.servs| && m.servs[i].group == s.group < |m.groups|
      invariant m.groups[s.group] == GroupAfter(g, k) && m.servs[i].flags == Seconds(g, s.flags, k)
    {
      OneSecond(g, s.flags, k);
      m.Tick(_ => true, _ => true, _ => true);
    }
  }

  lemma SecondStart(g: Group, f: Flags)
    requires Consistent(f)
    ensures GroupAfter(g, 0) == g && Seconds(g, f, 0) == f
  {
  }

  /** In the manager a stopped respawn service of an enabled group is started by the timer calls up to
      the next respawn of its group exactly if the group has timers. */
  method RespawnByTimers(m: Manager, i: nat)
    requires m.Valid() && i < |m.servs| && m.servs[i].group < |m.groups| && !m.groups[m.servs[i].group].disabled
    requires Respawns(m.servs[i].flags) && Stopped in m.servs[i].flags
    modifies m
    ensures m.Valid() && i < |m.servs|
    ensures Started in m.servs[i].flags <==> old(m.groups)[old(m.servs)[i].group].timed
  {
    hide Consistent, Linked, Typed, Fresh, Seconds, Respawns;
    assert ServOk(m.groups, m.servs[i]);
    var g := m.groups[m.servs[i].group];
    RespawnedInTime(g, m.servs[i].flags);
    LetSecondsPass(m, DueIn(g) + 1, i);
  }

  lemma NothingDisturbs()
    ensures Undisturbed([]) && NeverEnabled([])
  {
  }

  lemma UndisturbedAppend(a: seq<Happening>, b: seq<Happening>)
    requires Undisturbed(a) && Undisturbed(b)
    ensures Undisturbed(a + b)
  {
  }

  lemma KeepsName(groups: seq<Group>, servs: seq<Serv>, conns: map<nat, Conn>, e: Event, i: nat, r: Serv)
    requires i < |servs| && ServOk(groups, servs[i]) && EventMoved(groups, servs, conns, e, i, r)
    ensures r.name == servs[i].name && r.group == servs[i].group
  {
  }

  /** Disabling a running service of an enabled group: it is told to stop exactly if it can be reached,
      and once its connection is lost it is down and disabled, and nothing starts it until a client's
      enable command may reach it. */
  method DisableForGood(m: Manager, i: nat, sendOk: bool, restartOk: bool, events: seq<Event>) returns (told: bool)
    requires m.Valid() && i < |m.servs| && m.servs[i].group < |m.groups| && !m.groups[m.servs[i].group].disabled
    requires Running in m.servs[i].flags && Enabled in m.servs[i].flags
    requires forall k :: 0 <= k < |events| ==> !Enables(events[k], m.servs[i].name, m.servs[i].group)
    modifies m
    ensures m.Valid() && i < |m.servs|
    ensures told <==> sendOk || Stopping in old(m.servs)[i].flags
    ensures Disabled in m.servs[i].flags && Started !in m.servs[i].flags
    ensures events == [] ==> IsStopped(m.servs[i].flags) && m.servs[i].conn.None?
  {
    hide Consistent, Fresh, Detach, Disable, Stop, AllMoved, Obeyed, Enables, NeverEnabled, Life, Calm;
    ghost var f := m.servs[i].flags;
    assert ServOk(m.groups, m.servs[i]);
    DisableTakesDown(f, sendOk, restartOk);
    var rc := m.Control(i, DoDisable, true, sendOk);
    told := Stopping in m.servs[i].flags;
    assert ServOk(m.groups, m.servs[i]);
    var c := m.servs[i].conn.value;
    assert c in m.conns && m.conns[c].serv == Some(i);
    m.Process(c, Disconnected, restartOk);
    if events != [] {
      ghost var _ := RunLife(m, events, i);
    }
  }
}
