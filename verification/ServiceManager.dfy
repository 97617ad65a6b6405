/** The manager: service groups, their services, and the connections of clients and services
    (mgmt/fhmgr/fh_mgmt_service.c, fh_mgmt_conn.c). The outcomes of system(), of sends and of receives
    are given per service by the caller. */
module ServiceManagers {
  import opened Basics
  import opened ServiceStates
  import RestartTimers

  datatype Group = Group(disabled: bool, timed: bool, restarts: bool, restartTicks: nat,
                         respawnPeriod: nat, respawnTicks: nat)

  datatype Serv = Serv(name: string, flags: Flags, conn: Option<nat>, group: nat)

  datatype Conn = Conn(server: bool, cltype: nat, serv: Option<nat>)

  const CL_CLI: nat := 1
  const CL_SERVICE: nat := 2

  type Outcome = nat -> bool    // success or failure, per service

  // ----- the invariant -----

  /** A service's own state, and its agreement with its group and its connection pointer. */
  predicate ServOk(groups: seq<Group>, s: Serv) {
    && Consistent(s.flags)
    && (Running in s.flags <==> s.conn.Some?)
    && s.group < |groups|
    && (groups[s.group].disabled ==> Disabled in s.flags)
  }

  predicate ServsOk(groups: seq<Group>, servs: seq<Serv>) {
    forall i :: 0 <= i < |servs| ==> ServOk(groups, servs[i])
  }

  /** The pointers between services and connections are inverse to each other. */
  predicate Linked(servs: seq<Serv>, conns: map<nat, Conn>) {
    && (forall i :: 0 <= i < |servs| && servs[i].conn.Some? ==>
          servs[i].conn.value in conns && conns[servs[i].conn.value].serv == Some(i))
    && (forall c :: c in conns && conns[c].serv.Some? ==>
          conns[c].serv.value < |servs| && servs[conns[c].serv.value].conn == Some(c))
  }

  /** Every connection but those in odd is a service client exactly when it has a service. */
  predicate Typed(conns: map<nat, Conn>, odd: set<nat>) {
    forall c :: c in conns && c !in odd ==>
      (conns[c].serv.Some? <==> !conns[c].server && conns[c].cltype == CL_SERVICE)
  }

  predicate Fresh(conns: map<nat, Conn>, next: nat) { forall c :: c in conns ==> c < next }

  /** What every event keeps. */
  predicate Inv(groups: seq<Group>, servs: seq<Serv>, conns: map<nat, Conn>, odd: set<nat>) {
    ServsOk(groups, servs) && Linked(servs, conns) && Typed(conns, odd)
  }

  lemma ServFlagsOk(groups: seq<Group>, servs: seq<Serv>, conns: map<nat, Conn>, i: nat, odd: set<nat>)
    requires Inv(groups, servs, conns, odd) && i < |servs|
    ensures ServOk(groups, servs[i])
  {
  }

  /** A change of flags that leaves running alone and never lifts a group's disabling. */
  lemma FlagsKeepInv(groups: seq<Group>, servs: seq<Serv>, conns: map<nat, Conn>, i: nat, f: Flags, odd: set<nat>)
    requires Inv(groups, servs, conns, odd) && i < |servs|
    requires Consistent(f) && (Running in f <==> Running in servs[i].flags)
    requires groups[servs[i].group].disabled ==> Disabled in f
    ensures Inv(groups, servs[i := servs[i].(flags := f)], conns, odd)
  {
  }

  lemma AddKeepsInv(groups: seq<Group>, servs: seq<Serv>, conns: map<nat, Conn>, s: Serv)
    requires Inv(groups, servs, conns, {}) && ServOk(groups, s) && s.conn.None?
    ensures Inv(groups, servs + [s], conns, {})
  {
  }

  lemma AttachKeepsInv(groups: seq<Group>, servs: seq<Serv>, conns: map<nat, Conn>, i: nat, c: nat)
    requires Inv(groups, servs, conns, {c}) && i < |servs| && c in conns
    requires conns[c] == Conn(false, CL_SERVICE, None) && Attachable(servs[i].flags)
    ensures Inv(groups, servs[i := servs[i].(flags := Attach(servs[i].flags), conn := Some(c))],
                conns[c := conns[c].(serv := Some(i))], {})
  {
  }

  lemma DetachKeepsInv(groups: seq<Group>, servs: seq<Serv>, conns: map<nat, Conn>, i: nat, c: nat, systemOk: bool)
    requires Inv(groups, servs, conns, {c}) && i < |servs| && c in conns && conns[c].serv == Some(i)
    ensures Running in servs[i].flags && servs[i].conn == Some(c)
    ensures Inv(groups, servs[i := servs[i].(flags := Detach(servs[i].flags, systemOk), conn := None)],
                conns[c := conns[c].(serv := None)], {c})
  {
  }

  lemma DropKeepsInv(groups: seq<Group>, servs: seq<Serv>, conns: map<nat, Conn>, c: nat)
    requires Inv(groups, servs, conns, {c}) && c in conns && conns[c].serv.None?
    ensures Inv(groups, servs, conns - {c}, {})
  {
  }

  /** The link is one-to-one: no two connections serve one service, and no two services share one. */
  lemma LinkIsOneToOne(servs: seq<Serv>, conns: map<nat, Conn>, i: nat, j: nat, c: nat, d: nat)
    requires Linked(servs, conns) && i < |servs| && j < |servs| && c in conns && d in conns
    ensures servs[i].conn.Some? && servs[i].conn == servs[j].conn ==> i == j
    ensures conns[c].serv.Some? && conns[c].serv == conns[d].serv ==> c == d
  {
  }

  /** Service i of before, which was running, has lost its connection in after. */
  predicate FreedAs(before: seq<Serv>, after: seq<Serv>, i: nat, systemOk: bool) {
    && i < |before| && Consistent(before[i].flags) && Running in before[i].flags
    && after == before[i := before[i].(flags := Detach(before[i].flags, systemOk), conn := None)]
  }

  predicate Unknown(servs: seq<Serv>, name: string) {
    forall j :: 0 <= j < |servs| ==> servs[j].name != name
  }

  /** Service i is the first of that name, in the order of the groups and then of their services. */
  predicate IsFirst(servs: seq<Serv>, name: string, i: nat) {
    && i < |servs| && servs[i].name == name
    && forall j :: 0 <= j < |servs| && servs[j].name == name ==>
         servs[i].group < servs[j].group || (servs[i].group == servs[j].group && i <= j)
  }

  /** Service i of before has been given connection c in after. */
  predicate AttachedAs(before: seq<Serv>, after: seq<Serv>, i: nat, c: nat) {
    && i < |before| && Consistent(before[i].flags) && Attachable(before[i].flags)
    && after == before[i := before[i].(flags := Attach(before[i].flags), conn := Some(c))]
  }

  // ----- operator commands -----

  datatype Action = DoEnable | DoDisable | DoStart | DoStop | DoRestart

  /** serv_request, for the control commands. */
  function Command(a: Action, f: Flags, groupDisabled: bool, systemOk: bool, sendOk: bool): (r: Flags)
    requires Consistent(f) && (groupDisabled ==> Disabled in f)
    ensures Consistent(r) && (Running in r <==> Running in f) && (groupDisabled ==> Disabled in r)
  {
    match a
    case DoEnable => Enable(f, groupDisabled, systemOk)
    case DoDisable => Disable(f, groupDisabled, sendOk)
    case DoStart => Start(f, systemOk)
    case DoStop => Stop(f, sendOk, AdminStopping)
    case DoRestart => Restart(f, systemOk, sendOk)
  }

  predicate CommandOk(a: Action, f: Flags, groupDisabled: bool, systemOk: bool, sendOk: bool) {
    match a
    case DoEnable => EnableOk(f, groupDisabled, systemOk)
    case DoDisable => true
    case DoStart => StartOk(f, systemOk)
    case DoStop => StopOk(f, sendOk)
    case DoRestart => RestartOk(f, systemOk, sendOk)
  }

  /** The command fails on service s. */
  predicate Refuses(groups: seq<Group>, s: Serv, a: Action, systemOk: bool, sendOk: bool) {
    s.group < |groups| && !CommandOk(a, s.flags, groups[s.group].disabled, systemOk, sendOk)
  }

  /** Service i of group g comes before service stop of group last. */
  predicate Before(g: nat, i: nat, last: nat, stop: nat) { g < last || (g == last && i < stop) }

  datatype Target = OneService(name: string) | OneGroup(group: nat) | All

  predicate Addressed(t: Target, servs: seq<Serv>, i: nat)
    requires i < |servs|
  {
    match t
    case OneService(name) => IsFirst(servs, name, i)
    case OneGroup(g) => servs[i].group == g && Cli in servs[i].flags
    case All => Cli in servs[i].flags
  }

  /** Unless one of several services refuses, every service addressed was given the command. */
  ghost predicate Obeyed(groups: seq<Group>, before: seq<Serv>, after: seq<Serv>, t: Target, a: Action,
                         system: Outcome, send: Outcome)
    requires ServsOk(groups, before) && |after| == |before|
  {
    (forall i :: 0 <= i < |before| && Addressed(t, before, i) ==>
       t.OneService? || !Refuses(groups, before[i], a, system(i), send(i))) ==>
    (forall i :: 0 <= i < |before| && Addressed(t, before, i) ==> after[i] == before[i].(flags :=
       Command(a, before[i].flags, groups[before[i].group].disabled, system(i), send(i))))
  }

  lemma OneObeys(groups: seq<Group>, before: seq<Serv>, after: seq<Serv>, name: string, a: Action,
                 system: Outcome, send: Outcome, found: Option<nat>)
    requires ServsOk(groups, before) && (found.None? ==> Unknown(before, name) && after == before)
    requires found.Some? ==>
             IsFirst(before, name, found.value) && after == before[found.value := before[found.value].(flags :=
             Command(a, before[found.value].flags, groups[before[found.value].group].disabled,
                     system(found.value), send(found.value)))]
    ensures Obeyed(groups, before, after, OneService(name), a, system, send)
    ensures forall i :: 0 <= i < |before| && !IsFirst(before, name, i) ==> after[i] == before[i]
  {
    hide Command, Refuses;
  }

  lemma GroupObeys(groups: seq<Group>, before: seq<Serv>, after: seq<Serv>, g: nat, a: Action,
                   system: Outcome, send: Outcome, rc: Status, stop: nat)
    requires ServsOk(groups, before) && |after| == |before| && stop <= |before| && (rc == Ok ==> stop == |before|)
    requires rc != Ok ==>
             stop > 0 && before[stop - 1].group == g && Cli in before[stop - 1].flags &&
             Refuses(groups, before[stop - 1], a, system(stop - 1), send(stop - 1))
    requires forall i :: 0 <= i < |before| && before[i].group == g && Cli in before[i].flags && i < stop ==>
             after[i] == before[i].(flags :=
             Command(a, before[i].flags, groups[before[i].group].disabled, system(i), send(i)))
    ensures Obeyed(groups, before, after, OneGroup(g), a, system, send)
  {
    hide Command, Refuses;
    if rc != Ok { assert Addressed(OneGroup(g), before, stop - 1); }
  }

  lemma AllObey(groups: seq<Group>, before: seq<Serv>, after: seq<Serv>, a: Action,
                system: Outcome, send: Outcome, rc: Status, g: nat, stop: nat)
    requires ServsOk(groups, before) && |after| == |before| && (rc == Ok ==> g == |groups|)
    requires rc != Ok ==>
             0 < stop <= |before| && Cli in before[stop - 1].flags &&
             Refuses(groups, before[stop - 1], a, system(stop - 1), send(stop - 1))
    requires forall i :: 0 <= i < |before| && Cli in before[i].flags && Before(before[i].group, i, g, stop) ==>
             after[i] == before[i].(flags :=
             Command(a, before[i].flags, groups[before[i].group].disabled, system(i), send(i)))
    ensures Obeyed(groups, before, after, All, a, system, send)
  {
    hide Command, Refuses;
    if rc != Ok { assert Addressed(All, before, stop - 1); }
  }

  // ----- what a connection delivers -----

  /** What a connection delivers. Disconnected stands for a failed receive. */
  datatype Input =
    | Disconnected
    | Connection(accepted: bool)
    | Registration(parses: bool, cltype: nat, name: string, sendOk: bool)
    | Asked(target: Target, action: Action, system: Outcome, send: Outcome)
    | Query
    | Other

  /** What input from connection conn may do to the flags f of service i: nothing; the command asked for
      by a client that addresses it; the loss of its own connection; or, to the first service of the
      name registered, an attachment, lost again at once if the response cannot be sent. */
  ghost predicate Moved(groups: seq<Group>, servs: seq<Serv>, conn: Conn, input: Input, restartOk: bool, i: nat,
                        r: Flags)
    requires i < |servs| && ServOk(groups, servs[i])
  {
    var f, gd := servs[i].flags, groups[servs[i].group].disabled;
    || r == f
    || (input.Asked? && Addressed(input.target, servs, i) &&
        r == Command(input.action, f, gd, input.system(i), input.send(i)))
    || (conn.serv == Some(i) && Running in f && r == Detach(f, restartOk))
    || (input.Registration? && IsFirst(servs, input.name, i) && Attachable(f) &&
        r == if input.sendOk then Attach(f) else Detach(Attach(f), restartOk))
  }

  ghost predicate AllMoved(groups: seq<Group>, before: seq<Serv>, after: seq<Serv>, conn: Conn, input: Input,
                           restartOk: bool) {
    && ServsOk(groups, before) && |after| == |before|
    && forall i :: 0 <= i < |before| ==>
         && after[i].name == before[i].name && after[i].group == before[i].group
         && Moved(groups, before, conn, input, restartOk, i, after[i].flags)
  }

  /** The connection is a client's that has not registered as anything known. */
  predicate Registers(conn: Conn, input: Input) {
    input.Registration? && !conn.server && conn.cltype != CL_CLI && conn.cltype != CL_SERVICE
  }

  /** Between before and after the connection to serv, if any, was closed, or nothing happened. */
  ghost predicate Closed(before: seq<Serv>, after: seq<Serv>, serv: Option<nat>, restartOk: bool, closed: bool) {
    if closed && serv.Some? then FreedAs(before, after, serv.value, restartOk) else after == before
  }

  lemma CommandMoves(groups: seq<Group>, before: seq<Serv>, after: seq<Serv>, conn: Conn, input: Input, restartOk: bool)
    requires ServsOk(groups, before) && |after| == |before| && input.Asked?
    requires forall i :: 0 <= i < |before| && after[i] != before[i] ==>
               Addressed(input.target, before, i) && after[i] == before[i].(flags :=
               Command(input.action, before[i].flags, groups[before[i].group].disabled, input.system(i), input.send(i)))
    ensures AllMoved(groups, before, after, conn, input, restartOk)
  {
  }

  lemma LossMoves(groups: seq<Group>, before: seq<Serv>, after: seq<Serv>, conn: Conn, input: Input, restartOk: bool,
                  closed: bool)
    requires ServsOk(groups, before) && Closed(before, after, conn.serv, restartOk, closed)
    ensures AllMoved(groups, before, after, conn, input, restartOk)
  {
    hide Detach, Command;
  }

  /** A client's command. */
  predicate Commands(conn: Conn, input: Input) { input.Asked? && !conn.server && conn.cltype == CL_CLI }

  /** The registration on connection c returned rc and left the connection with serv. */
  ghost predicate Registered(before: seq<Serv>, middle: seq<Serv>, c: nat, input: Input, serv: Option<nat>, rc: Status)
    requires input.Registration?
  {
    && (serv.None? ==> middle == before)
    && (serv.Some? ==> IsFirst(before, input.name, serv.value) && AttachedAs(before, middle, serv.value, c)
                       && (rc == Ok <==> input.sendOk))
    && (input.parses && input.sendOk && input.cltype == CL_SERVICE && serv.None? ==>
          Unknown(before, input.name) ||
          exists i: nat :: IsFirst(before, input.name, i) && !Attachable(before[i].flags))
  }

  lemma RegistrationMoves(groups: seq<Group>, before: seq<Serv>, middle: seq<Serv>, after: seq<Serv>, conn: Conn,
                          input: Input, restartOk: bool, serv: Option<nat>, rc: Status, c: nat)
    requires ServsOk(groups, before) && input.Registration? && Registered(before, middle, c, input, serv, rc)
    requires Closed(middle, after, serv, restartOk, rc != Ok)
    ensures AllMoved(groups, before, after, conn, input, restartOk)
  {
    hide Detach, Attach, Command;
  }

  lemma RegistrationSucceeds(before: seq<Serv>, middle: seq<Serv>, input: Input, serv: Option<nat>, rc: Status, c: nat)
    requires input.Registration? && Registered(before, middle, c, input, serv, rc)
    requires input.parses && input.sendOk && input.cltype == CL_SERVICE
    ensures forall i :: 0 <= i < |before| && IsFirst(before, input.name, i) && Attachable(before[i].flags) ==>
            rc == Ok && serv == Some(i) && AttachedAs(before, middle, i, c)
  {
  }

  // ----- what one second does -----

  /** The service of an enabled group whose respawn is due, then of a group whose restart is due. */
  function TickFlags(g: Group, f: Flags, spawn: bool, system: bool, send: bool): (r: Flags)
    requires Consistent(f)
    ensures Consistent(r) && (Running in r <==> Running in f) && (Disabled in r <==> Disabled in f)
  {
    var f1 := if g.timed && RespawnDue(g) then Monitor(f, spawn) else f;
    if g.timed && RestartDue(g) then Restart(f1, system, send) else f1
  }

  /** A running service is only ever told to restart, when the restart of its group is due and it can be
      reached. A stopped one is started, if it is enabled and not of the wait kind, by the restart, or by
      the respawn if that is due and it stopped by itself. A started one is to be restarted later. */
  lemma TickExactly(g: Group, f: Flags, spawn: bool, system: bool, send: bool)
    requires Consistent(f)
    ensures var r := TickFlags(g, f, spawn, system, send);
            var respawn := g.timed && !g.disabled && g.respawnTicks >= g.respawnPeriod;
            var restart := g.timed && g.restarts && RestartTimers.Fires(g.restartTicks);
            && (Running in f ==> r == if restart && send then f + {RestartPending, Stopping} else f)
            && (IsStopped(f) && (Disabled in f || Wait in f) ==> r == f)
            && (IsStopped(f) && Enabled in f && Wait !in f ==>
                  (Started in r <==> (respawn && Respawn in f && Stopped in f && spawn) || (restart && system)))
            && (Started in f ==> r == if restart then f + {RestartPending} else f)
  {
  }

  predicate RespawnDue(g: Group) { !g.disabled && g.respawnTicks >= g.respawnPeriod }

  predicate RestartDue(g: Group) { g.restarts && RestartTimers.Fires(g.restartTicks) }

  function TickGroup(g: Group): Group {
    if !g.timed then g
    else g.(respawnTicks := if g.disabled then g.respawnTicks else if RespawnDue(g) then 0 else g.respawnTicks + 1,
            restartTicks := if g.restarts then RestartTimers.Next(g.restartTicks) else g.restartTicks)
  }

  /** A group that has a restart time restarts every day; it has timers if it is enabled. */
  function NewGroup(disabled: bool, stats: bool, now: nat, restartTime: nat, respawnPeriod: nat): Group
    requires now < RestartTimers.MAX_SECS_PER_DAY
  {
    var restarts := restartTime > 0;
    Group(disabled, !disabled && (stats || restarts), restarts,
          if restarts then RestartTimers.StartTicks(now, restartTime) else 0, respawnPeriod, 0)
  }

  /** The group after n timer calls. */
  function GroupAfter(g: Group, n: nat): Group {
    if n == 0 then g else TickGroup(GroupAfter(g, n - 1))
  }

  lemma {:induction false} GroupFollowsTimer(g: Group, n: nat)
    requires g.timed && g.restarts
    ensures var r := GroupAfter(g, n);
            r.timed && r.restarts && r.restartTicks == RestartTimers.After(g.restartTicks, n)
  {
    if n > 0 { GroupFollowsTimer(g, n - 1); }
  }

  /** The n-th timer call restarts the services of an enabled group exactly if it has a restart time
      and that is due. */
  lemma GroupRestartsOnTime(stats: bool, now: nat, rt: nat, period: nat, n: nat)
    requires now < RestartTimers.MAX_SECS_PER_DAY && n > 0
    ensures RestartDue(GroupAfter(NewGroup(false, stats, now, rt, period), n - 1)) <==>
            rt > 0 && RestartTimers.DueAt(now, rt, n)
  {
    hide RestartTimers.After, RestartTimers.Fires, RestartTimers.DueAt;
    var g := NewGroup(false, stats, now, rt, period);
    if rt > 0 {
      GroupFollowsTimer(g, n - 1);
      RestartTimers.AfterNext(g.restartTicks, n - 1);
      RestartTimers.RestartsOnTime(now, rt, n);
    } else {
      GroupWithoutTimer(g, n - 1);
    }
  }

  lemma {:induction false} GroupWithoutTimer(g: Group, n: nat)
    requires !g.restarts
    ensures !GroupAfter(g, n).restarts
  {
    if n > 0 { GroupWithoutTimer(g, n - 1); }
  }

  /** fh_mgmt_serv_start on the service's flags. */
  method StartFlags(f: Flags, systemOk: bool) returns (flags: Flags, rc: Status)
    requires Consistent(f)
    ensures flags == Start(f, systemOk) && rc == if StartOk(f, systemOk) then Ok else Error
  {
    flags := f;
    if Disabled in flags { return flags, Ok; }
    if !(Stopped in flags || AdminStopped in flags) { return flags, Ok; }
    if !systemOk { return flags, Error; }
    if Wait !in flags {
      flags := flags - {Stopped, AdminStopped};
      flags := flags + {Started};
    }
    return flags, Ok;
  }

  class Manager {
    var groups: seq<Group>
    var servs: seq<Serv>
    var conns: map<nat, Conn>
    var nextId: nat

    ghost predicate Valid()
      reads this
    {
      Inv(groups, servs, conns, {}) && Fresh(conns, nextId)
    }

    /** fh_mgmt_serv_init and fh_mgmt_conn_init */
    constructor ()
      ensures Valid() && groups == [] && servs == [] && conns == map[]
    {
      groups, servs, conns, nextId := [], [], map[], 0;
    }

    /** fh_mgmt_sg_new and fh_mgmt_serv_post_init, at second now of the day. */
    method AddGroup(disabled: bool, stats: bool, now: nat, restartTime: nat, respawnPeriod: nat)
      requires Valid() && now < RestartTimers.MAX_SECS_PER_DAY
      modifies this`groups
      ensures Valid() && groups == old(groups) + [NewGroup(disabled, stats, now, restartTime, respawnPeriod)]
    {
      var restarts, ticks := false, 0;
      if restartTime > 0 {
        restarts := true;
        ticks := RestartTimers.StartTicks(now, restartTime);
      }
      var timed := false;
      if !disabled {
        if stats || restarts { timed := true; }
      }
      groups := groups + [Group(disabled, timed, restarts, ticks, respawnPeriod, 0)];
    }

    /** fh_mgmt_serv_new and fh_mgmt_sg_add_serv */
    method AddService(name: string, g: nat, disable: bool, options: Flags)
      requires Valid() && g < |groups| && options <= {Stats, Shutdown, Wait, Spawn, Respawn, Cli}
      modifies this`servs
      ensures Valid()
      ensures servs == old(servs) +
              [Serv(name, Added(Created(disable, options), groups[g].disabled), None, g)]
    {
      hide Inv;
      var flags := options;
      if disable { flags := flags + {Disabled}; } else { flags := flags + {Enabled}; }
      flags := flags + {Stopped};
      if groups[g].disabled {
        if Disabled !in flags {
          flags := flags + {Disabled};
          flags := flags - {Enabled};
          flags := flags - {Stopped};
        }
      }
      assert flags == Added(Created(disable, options), groups[g].disabled);
      AddKeepsInv(groups, servs, conns, Serv(name, flags, None, g));
      servs := servs + [Serv(name, flags, None, g)];
    }

    /** fh_mgmt_serv_lookup: group by group, the first service of that name. */
    method Lookup(name: string) returns (r: Option<nat>)
      requires ServsOk(groups, servs)
      ensures r.None? ==> Unknown(servs, name)
      ensures r.Some? ==> IsFirst(servs, name, r.value)
    {
      for g := 0 to |groups|
        invariant forall j :: 0 <= j < |servs| && servs[j].group < g ==> servs[j].name != name
      {
        for i := 0 to |servs|
          invariant forall j :: 0 <= j < i && servs[j].group == g ==> servs[j].name != name
        {
          if servs[i].group == g && servs[i].name == name { return Some(i); }
        }
      }
      return None;
    }

    /** Replaces the flags of one service. */
    method SetFlags(i: nat, f: Flags)
      requires Valid() && i < |servs|
      requires Consistent(f) && (Running in f <==> Running in servs[i].flags)
      requires groups[servs[i].group].disabled ==> Disabled in f
      modifies this`servs
      ensures Valid() && servs == old(servs)[i := old(servs)[i].(flags := f)]
    {
      FlagsKeepInv(groups, servs, conns, i, f, {});
      servs := servs[i := servs[i].(flags := f)];
    }

    /** fh_mgmt_serv_start */
    method StartService(i: nat, systemOk: bool) returns (rc: Status)
      requires Valid() && i < |servs|
      modifies this`servs
      ensures Valid() && servs == old(servs)[i := old(servs)[i].(flags := Start(old(servs)[i].flags, systemOk))]
      ensures rc == if StartOk(old(servs)[i].flags, systemOk) then Ok else Error
    {
      var flags;
      flags, rc := StartFlags(servs[i].flags, systemOk);
      SetFlags(i, flags);
    }

    /** fh_mgmt_serv_stop, and with the other mark fh_mgmt_serv_admin_stop. Whenever it sends, there is
        a connection to send on. */
    method StopService(i: nat, sendOk: bool, mark: Flag) returns (rc: Status)
      requires Valid() && i < |servs| && mark in {Stopping, AdminStopping}
      modifies this`servs
      ensures Valid() && servs == old(servs)[i := old(servs)[i].(flags := Stop(old(servs)[i].flags, sendOk, mark))]
      ensures rc == if StopOk(old(servs)[i].flags, sendOk) then Ok else Error
    {
      var flags := servs[i].flags;
      if Stopped in flags || AdminStopped in flags { return Ok; }
      if Running !in flags { return Ok; }
      assert servs[i].conn.Some? && servs[i].conn.value in conns;
      if !sendOk { return Error; }
      flags := flags + {mark};
      SetFlags(i, flags);
      return Ok;
    }

    /** fh_mgmt_serv_restart */
    method RestartService(i: nat, systemOk: bool, sendOk: bool) returns (rc: Status)
      requires Valid() && i < |servs|
      modifies this`servs
      ensures Valid()
      ensures servs == old(servs)[i := old(servs)[i].(flags := Restart(old(servs)[i].flags, systemOk, sendOk))]
      ensures rc == if RestartOk(old(servs)[i].flags, systemOk, sendOk) then Ok else Error
    {
      if Stopped in servs[i].flags || AdminStopped in servs[i].flags {
        rc := StartService(i, systemOk);
        return;
      }
      rc := StopService(i, sendOk, Stopping);
      if rc != Ok { return; }
      SetFlags(i, servs[i].flags + {RestartPending});
    }

    /** fh_mgmt_serv_disable: the assertion that a disabled group's service is disabled holds. */
    method DisableService(i: nat, sendOk: bool) returns (rc: Status)
      requires Valid() && i < |servs|
      modifies this`servs
      ensures Valid() && rc == Ok
      ensures servs == old(servs)[i := old(servs)[i].(
              flags := Disable(old(servs)[i].flags, groups[old(servs)[i].group].disabled, sendOk))]
    {
      if groups[servs[i].group].disabled {
        assert Disabled in servs[i].flags;
        return Ok;
      }
      if Disabled in servs[i].flags { return Ok; }
      var _ := StopService(i, sendOk, Stopping);
      var flags := servs[i].flags - {Enabled};
      flags := flags + {Disabled};
      SetFlags(i, flags);
      return Ok;
    }

    /** fh_mgmt_serv_enable */
    method EnableService(i: nat, systemOk: bool) returns (rc: Status)
      requires Valid() && i < |servs|
      modifies this`servs
      ensures Valid()
      ensures servs == old(servs)[i := old(servs)[i].(
              flags := Enable(old(servs)[i].flags, groups[old(servs)[i].group].disabled, systemOk))]
      ensures rc == if EnableOk(old(servs)[i].flags, groups[old(servs)[i].group].disabled, systemOk)
                    then Ok else Error
    {
      if groups[servs[i].group].disabled { return Error; }
      if Enabled in servs[i].flags { return Ok; }
      var flags := servs[i].flags - {Disabled};
      flags := flags + {Enabled};
      SetFlags(i, flags);
      rc := StartService(i, systemOk);
    }

    /** serv_request, for the control commands. */
    method Control(i: nat, a: Action, systemOk: bool, sendOk: bool) returns (rc: Status)
      requires Valid() && i < |servs|
      modifies this`servs
      ensures Valid()
      ensures servs == old(servs)[i := old(servs)[i].(
              flags := Command(a, old(servs)[i].flags, groups[old(servs)[i].group].disabled, systemOk, sendOk))]
      ensures rc == if CommandOk(a, old(servs)[i].flags, groups[old(servs)[i].group].disabled, systemOk, sendOk)
                    then Ok else Error
    {
      match a
      case DoEnable => rc := EnableService(i, systemOk);
      case DoDisable => rc := DisableService(i, sendOk);
      case DoStart => rc := StartService(i, systemOk);
      case DoStop => rc := StopService(i, sendOk, AdminStopping);
      case DoRestart => rc := RestartService(i, systemOk, sendOk);
    }

    /** sg_request: the command goes to each command-line service of the group in turn, until one fails. */
    method ControlGroup(g: nat, a: Action, system: Outcome, send: Outcome) returns (rc: Status, stop: nat)
      requires Valid()
      modifies this`servs
      ensures Valid() && |servs| == old(|servs|) && stop <= |servs|
      ensures rc == Ok ==> stop == |servs|
      ensures rc != Ok ==>
              stop > 0 && old(servs)[stop - 1].group == g && Cli in old(servs)[stop - 1].flags &&
              Refuses(groups, old(servs)[stop - 1], a, system(stop - 1), send(stop - 1))
      ensures forall i :: 0 <= i < |servs| ==> servs[i] == old(servs)[i].(flags :=
              if old(servs)[i].group == g && Cli in old(servs)[i].flags && i < stop
              then Command(a, old(servs)[i].flags, groups[old(servs)[i].group].disabled, system(i), send(i))
              else old(servs)[i].flags)
    {
      hide CommandOk, Command, Linked, Typed, Fresh;
      rc := Ok;
      stop := 0;
      while stop < |servs| && rc == Ok
        invariant Valid() && |servs| == old(|servs|) && stop <= |servs|
        invariant rc != Ok ==>
              stop > 0 && old(servs)[stop - 1].group == g && Cli in old(servs)[stop - 1].flags &&
              Refuses(groups, old(servs)[stop - 1], a, system(stop - 1), send(stop - 1))
        invariant forall i :: 0 <= i < |servs| ==> servs[i] == old(servs)[i].(flags :=
              if old(servs)[i].group == g && Cli in old(servs)[i].flags && i < stop
              then Command(a, old(servs)[i].flags, groups[old(servs)[i].group].disabled, system(i), send(i))
              else old(servs)[i].flags)
        decreases |servs| - stop
      {
        if servs[stop].group == g && Cli in servs[stop].flags {
          rc := Control(stop, a, system(stop), send(stop));
        }
        stop := stop + 1;
      }
    }

    /** fh_mgmt_serv_request_all: group after group, until one fails. */
    method ControlAll(a: Action, system: Outcome, send: Outcome) returns (rc: Status, g: nat, stop: nat)
      requires Valid()
      modifies this`servs
      ensures Valid() && |servs| == old(|servs|)
      ensures rc == Ok ==> g == |groups|
      ensures rc != Ok ==>
              0 < stop <= |servs| && Cli in old(servs)[stop - 1].flags &&
              Refuses(groups, old(servs)[stop - 1], a, system(stop - 1), send(stop - 1))
      ensures forall i :: 0 <= i < |servs| ==> servs[i] == old(servs)[i].(flags :=
              if Cli in old(servs)[i].flags && Before(old(servs)[i].group, i, g, stop)
              then Command(a, old(servs)[i].flags, groups[old(servs)[i].group].disabled, system(i), send(i))
              else old(servs)[i].flags)
    {
      hide CommandOk, Command, Refuses, Linked, Typed, Fresh;
      rc, g, stop := Ok, 0, 0;
      while g < |groups|
        invariant Valid() && |servs| == old(|servs|) && g <= |groups| && rc == Ok
        invariant forall i :: 0 <= i < |servs| ==> servs[i] == old(servs)[i].(flags :=
              if Cli in old(servs)[i].flags && old(servs)[i].group < g
              then Command(a, old(servs)[i].flags, groups[old(servs)[i].group].disabled, system(i), send(i))
              else old(servs)[i].flags)
      {
        rc, stop := ControlGroup(g, a, system, send);
        if rc != Ok { return; }
        g := g + 1;
      }
    }

    /** The command of a client, to one service, one group or all of them. */
    method Request(t: Target, a: Action, system: Outcome, send: Outcome)
      requires Valid()
      modifies this`servs
      ensures Valid() && |servs| == old(|servs|)
      ensures forall i :: 0 <= i < |servs| ==> servs[i] == old(servs)[i] || servs[i] == old(servs)[i].(flags :=
              Command(a, old(servs)[i].flags, groups[old(servs)[i].group].disabled, system(i), send(i)))
      ensures forall i :: 0 <= i < |servs| && !Addressed(t, old(servs), i) ==> servs[i] == old(servs)[i]
      ensures Obeyed(groups, old(servs), servs, t, a, system, send)
    {
      hide CommandOk, Command, Refuses, Linked, Typed, Fresh, Obeyed, IsFirst, Unknown, Before;
      ghost var before := servs;
      match t
      case OneService(name) =>
        var found := Lookup(name);
        if found.Some? { var _ := Control(found.value, a, system(found.value), send(found.value)); }
        OneObeys(groups, before, servs, name, a, system, send, found);
      case OneGroup(g) =>
        var rc, stop := ControlGroup(g, a, system, send);
        GroupObeys(groups, before, servs, g, a, system, send, rc, stop);
      case All =>
        var rc, g, stop := ControlAll(a, system, send);
        AllObey(groups, before, servs, a, system, send, rc, g, stop);
    }

    // ----- connections -----

    /** fh_mgmt_conn_new */
    method NewConn(server: bool) returns (c: nat)
      requires Valid()
      modifies this`conns, this`nextId
      ensures Valid() && c !in old(conns) && conns == old(conns)[c := Conn(server, 0, None)]
    {
      c := nextId;
      conns := conns[c := Conn(server, 0, None)];
      nextId := nextId + 1;
    }

    /** fh_mgmt_serv_attach of a client that has just said it is a service. */
    method AttachConn(i: nat, c: nat) returns (rc: Status)
      requires Inv(groups, servs, conns, {c}) && Fresh(conns, nextId)
      requires i < |servs| && c in conns && conns[c] == Conn(false, CL_SERVICE, None)
      modifies this`servs, this`conns
      ensures rc == if Attachable(old(servs)[i].flags) then Ok else Error
      ensures rc == Ok ==>
              Valid() && conns == old(conns)[c := Conn(false, CL_SERVICE, Some(i))] &&
              AttachedAs(old(servs), servs, i, c)
      ensures rc != Ok ==> servs == old(servs) && conns == old(conns)
    {
      hide Inv;
      var flags := servs[i].flags;
      if Started !in flags {
        if Stopped !in flags { return Error; }
        flags := flags - {Stopped};
        flags := flags + {Started};
      }
      flags := flags - {Started};
      flags := flags + {Running};
      ServFlagsOk(groups, servs, conns, i, {c});
      assert flags == Attach(servs[i].flags);
      AttachKeepsInv(groups, servs, conns, i, c);
      servs := servs[i := servs[i].(flags := flags, conn := Some(c))];
      conns := conns[c := conns[c].(serv := Some(i))];
      return Ok;
    }

    /** fh_mgmt_serv_detach */
    method DetachConn(i: nat, systemOk: bool, ghost c: nat) returns (rc: Status)
      requires Inv(groups, servs, conns, {c}) && Fresh(conns, nextId)
      requires i < |servs| && c in conns && conns[c].serv == Some(i)
      modifies this`servs, this`conns
      ensures rc == Ok && Inv(groups, servs, conns, {c}) && Fresh(conns, nextId)
      ensures conns == old(conns)[c := old(conns)[c].(serv := None)]
      ensures FreedAs(old(servs), servs, i, systemOk)
    {
      hide Inv;
      DetachKeepsInv(groups, servs, conns, i, c, systemOk);
      ServFlagsOk(groups, servs, conns, i, {c});
      var conn := servs[i].conn.value;
      var flags := servs[i].flags;
      if Running !in flags { return Error; }
      if AdminStopping in flags {
        flags := flags + {AdminStopped};
      } else {
        flags := flags + {Stopped};
      }
      flags := flags - {Running, Stopping, AdminStopping};
      if RestartPending in flags {
        flags := flags - {RestartPending};
        var rc1;
        flags, rc1 := StartFlags(flags, systemOk);
      }
      assert flags == Detach(servs[i].flags, systemOk);
      servs := servs[i := servs[i].(flags := flags, conn := None)];
      conns := conns[conn := conns[conn].(serv := None)];
      return Ok;
    }

    /** conn_free: the assertion on the detach holds. */
    method FreeConn(c: nat, systemOk: bool)
      requires Inv(groups, servs, conns, {c}) && Fresh(conns, nextId) && c in conns
      modifies this`servs, this`conns
      ensures Valid() && conns == old(conns) - {c} && |servs| == old(|servs|)
      ensures forall i :: 0 <= i < |servs| && old(conns)[c].serv != Some(i) ==> servs[i] == old(servs)[i]
      ensures old(conns)[c].serv.Some? ==> FreedAs(old(servs), servs, old(conns)[c].serv.value, systemOk)
    {
      if conns[c].serv.Some? {
        var rc := DetachConn(conns[c].serv.value, systemOk, c);
        assert rc == Ok;
      }
      DropKeepsInv(groups, servs, conns, c);
      conns := conns - {c};
    }

    /** conn_client_registration; sendOk is the outcome of the response. */
    method Register(c: nat, parses: bool, cltype: nat, name: string, sendOk: bool) returns (rc: Status)
      requires Valid() && c in conns && !conns[c].server && conns[c].cltype != CL_SERVICE
      modifies this`servs, this`conns
      ensures Inv(groups, servs, conns, {c}) && Fresh(conns, nextId) && c in conns
      ensures |servs| == old(|servs|)
      ensures forall d :: d in old(conns) && d != c ==> d in conns && conns[d] == old(conns)[d]
      ensures rc in {Ok, Error, NotFound} && (rc == Ok ==> parses && sendOk && Valid() && conns[c].cltype == cltype)
      ensures conns[c].serv.None? ==> servs == old(servs)
      ensures conns[c].serv.Some? ==>
              parses && cltype == CL_SERVICE && IsFirst(old(servs), name, conns[c].serv.value) &&
              AttachedAs(old(servs), servs, conns[c].serv.value, c)
      ensures rc == Ok ==> (conns[c].serv.Some? <==> cltype == CL_SERVICE)
      ensures rc == NotFound <==> parses && cltype == CL_SERVICE && Unknown(old(servs), name)
      ensures rc == Error && parses && sendOk ==>
              servs == old(servs) && cltype == CL_SERVICE &&
              exists i: nat :: IsFirst(servs, name, i) && !Attachable(servs[i].flags)
      ensures rc == Error && conns[c].serv.Some? ==> !sendOk
    {
      if !parses { return Error; }
      conns := conns[c := conns[c].(cltype := cltype)];
      assert Inv(groups, servs, conns, {c});
      if conns[c].cltype == CL_SERVICE {
        var found := Lookup(name);
        if found.None? { return NotFound; }
        rc := AttachConn(found.value, c);
        if rc != Ok { return; }
      }
      if !sendOk { return Error; }
      return Ok;
    }

    /** conn_process. A connection taken for a service's has one, so the service pointer it hands on is
        never null. */
    method Dispatch(c: nat, input: Input, ghost restartOk: bool) returns (rc: Status)
      requires Valid() && c in conns
      modifies this`servs, this`conns, this`nextId
      ensures Inv(groups, servs, conns, {c}) && Fresh(conns, nextId) && c in conns && (rc == Ok ==> Valid())
      ensures |servs| == old(|servs|)
      ensures forall d :: d in old(conns) && d != c ==> d in conns && conns[d] == old(conns)[d]
      ensures Registers(old(conns)[c], input) ==>
              Registered(old(servs), servs, c, input, conns[c].serv, rc)
      ensures !Registers(old(conns)[c], input) ==> conns[c] == old(conns)[c]
      ensures Commands(old(conns)[c], input) ==>
              rc == Ok && AllMoved(groups, old(servs), servs, old(conns)[c], input, restartOk) &&
              Obeyed(groups, old(servs), servs, input.target, input.action, input.system, input.send)
      ensures !Registers(old(conns)[c], input) && !Commands(old(conns)[c], input) ==> servs == old(servs)
      ensures input.Disconnected? || (!old(conns)[c].server && old(conns)[c].cltype == CL_SERVICE) ==> rc != Ok
    {
      hide Linked, Fresh, Command, AllMoved, Obeyed, Attach, Detach;
      ghost var before, conn := servs, conns[c];
      rc := Ok;
      if conns[c].server {
        if input.Connection? && input.accepted {
          var _ := NewConn(false);
        } else {
          rc := Error;
        }
      } else if conns[c].cltype == CL_CLI {
        if input.Asked? {
          Request(input.target, input.action, input.system, input.send);
          CommandMoves(groups, before, servs, conn, input, restartOk);
        } else if !input.Query? {
          rc := Error;
        }
      } else if conns[c].cltype == CL_SERVICE {
        assert conns[c].serv.Some?;
        rc := Error;
      } else if input.Registration? {
        rc := Register(c, input.parses, input.cltype, input.name, input.sendOk);
      } else {
        rc := Error;
      }
    }

    /** conn_process and, when it fails, conn_free, as in fh_mgmt_conn_loop. */
    method Process(c: nat, input: Input, restartOk: bool)
      requires Valid() && c in conns
      modifies this`servs, this`conns, this`nextId
      ensures Valid() && |servs| == old(|servs|)
      ensures AllMoved(groups, old(servs), servs, old(conns)[c], input, restartOk)
      ensures forall d :: d in old(conns) && d != c ==> d in conns && conns[d] == old(conns)[d]
      ensures !old(conns)[c].server && old(conns)[c].cltype == CL_SERVICE ==>
              c !in conns && old(conns)[c].serv.Some? && FreedAs(old(servs), servs, old(conns)[c].serv.value, restartOk)
      ensures input.Disconnected? ==> c !in conns
      ensures Commands(old(conns)[c], input) ==>
              c in conns && Obeyed(groups, old(servs), servs, input.target, input.action, input.system, input.send)
      ensures Registers(old(conns)[c], input) && input.parses && input.sendOk && input.cltype == CL_SERVICE ==>
              forall i :: 0 <= i < |servs| && IsFirst(old(servs), input.name, i) && Attachable(old(servs)[i].flags) ==>
                c in conns && AttachedAs(old(servs), servs, i, c)
    {
      hide Linked, Fresh, Command, AllMoved, Obeyed, Attach, Detach, Addressed, IsFirst, Unknown, AttachedAs;
      ghost var before, conn := servs, conns[c];
      assert ServsOk(groups, servs) && Typed(conns, {});
      var rc := Dispatch(c, input, restartOk);
      ghost var middle, serv := servs, conns[c].serv;
      if rc != Ok { FreeConn(c, restartOk); }
      assert Closed(middle, servs, serv, restartOk, rc != Ok);
      if Registers(conn, input) {
        RegistrationMoves(groups, before, middle, servs, conn, input, restartOk, serv, rc, c);
        if input.parses && input.sendOk && input.cltype == CL_SERVICE {
          RegistrationSucceeds(before, middle, input, serv, rc, c);
        }
      } else if !Commands(conn, input) {
        LossMoves(groups, before, servs, conn, input, restartOk, rc != Ok);
      }
    }

    // ----- timers -----

    /** sg_serv_monitor */
    method MonitorGroup(g: nat, spawn: Outcome)
      requires Valid() && g < |groups|
      modifies this`servs, this`groups
      ensures Valid() && |servs| == old(|servs|)
      ensures groups == old(groups)[g := old(groups)[g].(respawnTicks :=
              if old(groups)[g].respawnTicks >= old(groups)[g].respawnPeriod then 0
              else old(groups)[g].respawnTicks + 1)]
      ensures forall i :: 0 <= i < |servs| ==> servs[i] == old(servs)[i].(flags :=
              if old(servs)[i].group == g && old(groups)[g].respawnTicks >= old(groups)[g].respawnPeriod
              then Monitor(old(servs)[i].flags, spawn(i)) else old(servs)[i].flags)
    {
      if groups[g].respawnTicks >= groups[g].respawnPeriod {
        for k := 0 to |servs|
          invariant Valid() && |servs| == old(|servs|) && groups == old(groups)
          invariant forall i :: 0 <= i < |servs| ==> servs[i] == old(servs)[i].(flags :=
              if old(servs)[i].group == g && i < k then Monitor(old(servs)[i].flags, spawn(i)) else old(servs)[i].flags)
        {
          if servs[k].group == g && Respawn in servs[k].flags && Stopped in servs[k].flags {
            var _ := StartService(k, spawn(k));
          }
        }
        groups := groups[g := groups[g].(respawnTicks := 0)];
      } else {
        groups := groups[g := groups[g].(respawnTicks := groups[g].respawnTicks + 1)];
      }
    }

    /** sg_restart */
    method RestartGroup(g: nat, system: Outcome, send: Outcome)
      requires Valid()
      modifies this`servs
      ensures Valid() && |servs| == old(|servs|)
      ensures forall i :: 0 <= i < |servs| ==> servs[i] == old(servs)[i].(flags := if old(servs)[i].group == g
              then Restart(old(servs)[i].flags, system(i), send(i)) else old(servs)[i].flags)
    {
      for k := 0 to |servs|
        invariant Valid() && |servs| == old(|servs|)
        invariant forall i :: 0 <= i < |servs| ==> servs[i] == old(servs)[i].(flags :=
              if old(servs)[i].group == g && i < k
              then Restart(old(servs)[i].flags, system(i), send(i)) else old(servs)[i].flags)
      {
        if servs[k].group == g { var _ := RestartService(k, system(k), send(k)); }
      }
    }

    /** fh_mgmt_sg_timers for one group. */
    method TickOne(g: nat, spawn: Outcome, system: Outcome, send: Outcome)
      requires Valid() && g < |groups|
      modifies this`servs, this`groups
      ensures Valid() && |servs| == old(|servs|) && groups == old(groups)[g := TickGroup(old(groups)[g])]
      ensures forall i :: 0 <= i < |servs| ==> servs[i] == old(servs)[i].(flags := if old(servs)[i].group == g
              then TickFlags(old(groups)[g], old(servs)[i].flags, spawn(i), system(i), send(i))
              else old(servs)[i].flags)
    {
      if !groups[g].timed { return; }
      if !groups[g].disabled { MonitorGroup(g, spawn); }
      if groups[g].restarts {
        var ticks := (groups[g].restartTicks + 1) % UINT32;
        if ticks == RestartTimers.MAX_SECS_PER_DAY {
          RestartGroup(g, system, send);
          ticks := 0;
        }
        groups := groups[g := groups[g].(restartTicks := ticks)];
      }
    }

    /** fh_mgmt_sg_timers, called once a second. */
    method Tick(spawn: Outcome, system: Outcome, send: Outcome)
      requires Valid()
      modifies this`servs, this`groups
      ensures Valid() && |servs| == old(|servs|) && |groups| == old(|groups|)
      ensures forall g :: 0 <= g < |groups| ==> groups[g] == TickGroup(old(groups)[g])
      ensures forall i :: 0 <= i < |servs| ==> servs[i] == old(servs)[i].(flags :=
              TickFlags(old(groups)[old(servs)[i].group], old(servs)[i].flags, spawn(i), system(i), send(i)))
    {
      for k := 0 to |groups|
        invariant Valid() && |servs| == old(|servs|) && |groups| == old(|groups|)
        invariant forall g :: 0 <= g < |groups| ==>
              groups[g] == if g < k then TickGroup(old(groups)[g]) else old(groups)[g]
        invariant forall i :: 0 <= i < |servs| ==> servs[i] == old(servs)[i].(flags := if old(servs)[i].group < k
              then TickFlags(old(groups)[old(servs)[i].group], old(servs)[i].flags, spawn(i), system(i), send(i))
              else old(servs)[i].flags)
      {
        TickOne(k, spawn, system, send);
      }
    }
  }

  // ----- whole runs -----

  datatype Event =
    | Grouped(disabled: bool, stats: bool, now: nat, restartTime: nat, respawnPeriod: nat)
    | Configured(name: string, group: nat, disable: bool, options: Flags)
    | Listening
    | Data(conn: nat, input: Input, restartOk: bool)
    | Second(spawn: Outcome, system: Outcome, send: Outcome)

  /** What an event may do to service i. */
  ghost predicate EventMoved(groups: seq<Group>, servs: seq<Serv>, conns: map<nat, Conn>, e: Event, i: nat, r: Serv)
    requires i < |servs| && ServOk(groups, servs[i])
  {
    && r.name == servs[i].name && r.group == servs[i].group
    && match e
       case Data(c, input, restartOk) =>
         if c in conns then Moved(groups, servs, conns[c], input, restartOk, i, r.flags) else r.flags == servs[i].flags
       case Second(spawn, system, send) =>
         r.flags == TickFlags(groups[servs[i].group], servs[i].flags, spawn(i), system(i), send(i))
       case _ => r.flags == servs[i].flags
  }

  /** One event: every service moves as it may, every group as its timers do. */
  method Handle(m: Manager, e: Event)
    requires m.Valid()
    modifies m
    ensures m.Valid() && |m.servs| >= old(|m.servs|) && |m.groups| >= old(|m.groups|)
    ensures ServsOk(old(m.groups), old(m.servs))
    ensures forall g :: 0 <= g < old(|m.groups|) ==>
            m.groups[g] == if e.Second? then TickGroup(old(m.groups)[g]) else old(m.groups)[g]
    ensures forall i :: 0 <= i < old(|m.servs|) ==>
            EventMoved(old(m.groups), old(m.servs), old(m.conns), e, i, m.servs[i])
  {
    hide Linked, Typed, Fresh, Command, TickFlags, TickGroup, Moved, Obeyed;
    assert ServsOk(m.groups, m.servs);
    match e
    case Grouped(disabled, stats, now, restartTime, respawnPeriod) =>
      if now < RestartTimers.MAX_SECS_PER_DAY { m.AddGroup(disabled, stats, now, restartTime, respawnPeriod); }
    case Configured(name, g, disable, options) =>
      if g < |m.groups| && options <= {Stats, Shutdown, Wait, Spawn, Respawn, Cli} {
        m.AddService(name, g, disable, options);
      }
    case Listening => var _ := m.NewConn(true);
    case Data(c, input, restartOk) => if c in m.conns { m.Process(c, input, restartOk); }
    case Second(spawn, system, send) => m.Tick(spawn, system, send);
  }

  /** Any run of commands, connections, registrations, disconnections and timer calls keeps every
      service's flags consistent and the services and connections linked one-to-one, and passes every
      assertion on the way. */
  method Run(m: Manager, events: seq<Event>)
    requires m.Valid()
    modifies m
    ensures m.Valid()
  {
    for k := 0 to |events|
      invariant m.Valid()
    {
      Handle(m, events[k]);
    }
  }
}
