/** The states of a managed service (mgmt/fhmgr/fh_mgmt_service.c), encoded in its flags, and what each
    operation does to them. Spawning a process and sending to one succeed or fail as told. */
module ServiceStates {
  import opened Basics

  /** FH_MGMT_SERV_*: a flag word is the set of its flags. */
  datatype Flag =
    | Enabled | Disabled | Started | Running | Stopped | AdminStopped | Stats | Wait | Spawn | Cli
    | RestartPending | Stopping | AdminStopping | Respawn | Shutdown

  type Flags = set<Flag>

  predicate IsStopped(f: Flags) { Stopped in f || AdminStopped in f }

  /** Exactly one of enabled and disabled, at most one life-cycle state, stopping only while running,
      a pending restart only while not stopped. */
  predicate Consistent(f: Flags) {
    && Tally(Enabled in f) + Tally(Disabled in f) == 1
    && Tally(Started in f) + Tally(Running in f) + Tally(Stopped in f) + Tally(AdminStopped in f) <= 1
    && (Stopping in f || AdminStopping in f ==> Running in f)
    && (RestartPending in f ==> !IsStopped(f))
  }

  /** fh_mgmt_serv_new */
  function Created(disable: bool, options: Flags): (r: Flags)
    requires options <= {Stats, Shutdown, Wait, Spawn, Respawn, Cli}
    ensures Consistent(r) && IsStopped(r)
  {
    options + {if disable then Disabled else Enabled, Stopped}
  }

  /** fh_mgmt_sg_add_serv: a disabled group disables its services. */
  function Added(f: Flags, groupDisabled: bool): (r: Flags)
    requires Consistent(f)
    ensures Consistent(r) && (groupDisabled ==> Disabled in r) && (Running in r <==> Running in f)
  {
    if groupDisabled && Disabled !in f then f + {Disabled} - {Enabled} - {Stopped} else f
  }

  /** fh_mgmt_serv_start */
  function Start(f: Flags, systemOk: bool): (r: Flags)
    requires Consistent(f)
    ensures Consistent(r) && (Running in r <==> Running in f) && (Disabled in r <==> Disabled in f)
    ensures r != f ==> IsStopped(f) && Started in r && !IsStopped(r)
  {
    if Disabled in f || !IsStopped(f) || !systemOk || Wait in f then f
    else f - {Stopped, AdminStopped} + {Started}
  }

  /** fh_mgmt_serv_stop and fh_mgmt_serv_admin_stop: the mark left on a running service. */
  function Stop(f: Flags, sendOk: bool, mark: Flag): (r: Flags)
    requires Consistent(f) && mark in {Stopping, AdminStopping}
    ensures Consistent(r) && (Running in r <==> Running in f) && (Disabled in r <==> Disabled in f)
    ensures IsStopped(r) <==> IsStopped(f)
  {
    if IsStopped(f) || Running !in f || !sendOk then f else f + {mark}
  }

  /** fh_mgmt_serv_restart */
  function Restart(f: Flags, systemOk: bool, sendOk: bool): (r: Flags)
    requires Consistent(f)
    ensures Consistent(r) && (Running in r <==> Running in f) && (Disabled in r <==> Disabled in f)
  {
    if IsStopped(f) then Start(f, systemOk)
    else if Running in f && !sendOk then f
    else Stop(f, sendOk, Stopping) + {RestartPending}
  }

  /** fh_mgmt_serv_disable */
  function Disable(f: Flags, groupDisabled: bool, sendOk: bool): (r: Flags)
    requires Consistent(f)
    ensures Consistent(r) && (Running in r <==> Running in f)
    ensures Disabled in r <==> Disabled in f || !groupDisabled
  {
    if groupDisabled || Disabled in f then f else Stop(f, sendOk, Stopping) - {Enabled} + {Disabled}
  }

  /** fh_mgmt_serv_enable */
  function Enable(f: Flags, groupDisabled: bool, systemOk: bool): (r: Flags)
    requires Consistent(f)
    ensures Consistent(r) && (Running in r <==> Running in f)
    ensures groupDisabled ==> r == f
    ensures !groupDisabled ==> Enabled in r
  {
    if groupDisabled || Enabled in f then f else Start(f - {Disabled} + {Enabled}, systemOk)
  }

  /** fh_mgmt_serv_attach accepts a started service, or a stopped one that was started by hand. */
  predicate Attachable(f: Flags) { Started in f || Stopped in f }

  function Attach(f: Flags): (r: Flags)
    requires Consistent(f) && Attachable(f)
    ensures Consistent(r) && Running in r && Running !in f && (Disabled in r <==> Disabled in f)
  {
    f - {Stopped, Started} + {Running}
  }

  /** fh_mgmt_serv_detach of a running service: stopped, by an operator or not, and started again at
      once if a restart was pending. */
  function Detach(f: Flags, systemOk: bool): (r: Flags)
    requires Consistent(f) && Running in f
    ensures Consistent(r) && Running !in r && (Disabled in r <==> Disabled in f) && RestartPending !in r
    ensures RestartPending !in f ==> (AdminStopped in r <==> AdminStopping in f)
  {
    var down := f + {if AdminStopping in f then AdminStopped else Stopped} - {Running, Stopping, AdminStopping};
    if RestartPending in f then Start(down - {RestartPending}, systemOk) else down
  }

  /** sg_serv_monitor for one service of a group whose respawn is due. */
  function Monitor(f: Flags, systemOk: bool): (r: Flags)
    requires Consistent(f)
    ensures Consistent(r) && (Running in r <==> Running in f) && (Disabled in r <==> Disabled in f)
  {
    if Respawn in f && Stopped in f then Start(f, systemOk) else f
  }

  // ----- the status each operation returns -----

  predicate StartOk(f: Flags, systemOk: bool) { Disabled in f || !IsStopped(f) || systemOk }

  predicate StopOk(f: Flags, sendOk: bool) { IsStopped(f) || Running !in f || sendOk }

  predicate RestartOk(f: Flags, systemOk: bool, sendOk: bool) {
    if IsStopped(f) then StartOk(f, systemOk) else StopOk(f, sendOk)
  }

  predicate EnableOk(f: Flags, groupDisabled: bool, systemOk: bool) {
    !groupDisabled && (Enabled in f || StartOk(f - {Disabled}, systemOk))
  }

  // ----- what the operator is promised -----

  /** Restarting a running service and losing its connection leaves it started again, if it is enabled,
      not of the wait kind and its command succeeds. */
  lemma RestartBringsBack(f: Flags, sendOk: bool, systemOk: bool)
    requires Consistent(f) && Running in f
    ensures var r := Detach(Restart(f, systemOk, sendOk), systemOk);
            sendOk && Disabled !in f && Wait !in f && systemOk ==> Started in r
  {
  }

  /** The stop of a running service by its operator outlasts the loss of its connection exactly if no
      restart is pending, or starting is refused or fails. */
  lemma AdminStopSticks(f: Flags, systemOk: bool)
    requires Consistent(f) && Running in f
    ensures AdminStopped in Detach(Stop(f, true, AdminStopping), systemOk) <==>
            RestartPending !in f || Disabled in f || Wait in f || !systemOk
  {
  }

  /** A service restarted before it registered is running with a restart pending; its operator's stop
      then only starts it again. */
  lemma AdminStopUndone()
    ensures var f := Attach(Restart(Start(Created(false, {Spawn}), true), true, true));
            && Consistent(f) && Running in f && RestartPending in f
            && Started in Detach(Stop(f, true, AdminStopping), true)
  {
  }

  /** Once stopped by its operator a service is not started by the monitor, nor can it be attached; a
      respawn service that stopped otherwise is started by the monitor. */
  lemma MonitorRespectsOperator(f: Flags, systemOk: bool)
    requires Consistent(f)
    ensures AdminStopped in f ==> Monitor(f, systemOk) == f && !Attachable(f)
    ensures Stopped in f && Respawn in f && Wait !in f && Disabled !in f ==> Started in Monitor(f, true)
  {
  }

  // ----- what each operation does to each flag -----

  /** Between f and r, flags of those listed may change and no other. */
  predicate OnlyChanges(f: Flags, r: Flags, some: set<Flag>) {
    forall x :: x !in some ==> (x in r <==> x in f)
  }

  /** A command is run exactly for an enabled stopped service. */
  predicate Startable(f: Flags) { Enabled in f && (Stopped in f || AdminStopped in f) }

  /** A new service is stopped, enabled unless told otherwise, and has just the options given; added to a
      disabled group it is disabled and, if it was not before, in no life-cycle state at all. */
  lemma CreatedExactly(disable: bool, options: Flags, groupDisabled: bool)
    requires options <= {Stats, Shutdown, Wait, Spawn, Respawn, Cli}
    ensures var f := Created(disable, options); var r := Added(f, groupDisabled);
            && (Disabled in f <==> disable) && (Enabled in f <==> !disable) && Stopped in f
            && (Disabled in r <==> disable || groupDisabled) && (Enabled in r <==> !disable && !groupDisabled)
            && (Stopped in r <==> disable || !groupDisabled)
            && (forall x :: x !in {Enabled, Disabled, Stopped} ==> (x in f <==> x in options))
            && OnlyChanges(f, r, {Enabled, Disabled, Stopped})
  {
  }

  /** Start: the service is started, unless it is of the wait kind, exactly if it is enabled and stopped
      and its command succeeds. Its failure is returned exactly if a command was run and failed. */
  lemma StartExactly(f: Flags, systemOk: bool)
    requires Consistent(f)
    ensures var r := Start(f, systemOk); var starts := Startable(f) && systemOk && Wait !in f;
            && (Started in r <==> Started in f || starts)
            && (Stopped in r <==> Stopped in f && !starts) && (AdminStopped in r <==> AdminStopped in f && !starts)
            && OnlyChanges(f, r, {Started, Stopped, AdminStopped})
    ensures StartOk(f, systemOk) <==> (Startable(f) ==> systemOk)
  {
  }

  /** Stop: a running service that could be told so is marked. */
  lemma StopExactly(f: Flags, sendOk: bool, mark: Flag)
    requires Consistent(f) && mark in {Stopping, AdminStopping}
    ensures var r := Stop(f, sendOk, mark);
            (mark in r <==> mark in f || (Running in f && sendOk)) && OnlyChanges(f, r, {mark})
    ensures StopOk(f, sendOk) <==> (Running in f ==> sendOk)
  {
  }

  /** Restart: a stopped service is started at once; any other is to be started when it is down, and a
      running one that could be told so is stopped. */
  lemma RestartExactly(f: Flags, systemOk: bool, sendOk: bool)
    requires Consistent(f)
    ensures var r := Restart(f, systemOk, sendOk); var told := Running in f ==> sendOk;
            && (IsStopped(f) ==> r == Start(f, systemOk))
            && (!IsStopped(f) ==>
                  (RestartPending in r <==> RestartPending in f || told) &&
                  (Stopping in r <==> Stopping in f || (Running in f && sendOk)) &&
                  OnlyChanges(f, r, {RestartPending, Stopping}))
    ensures RestartOk(f, systemOk, sendOk) <==> (Startable(f) ==> systemOk) && (Running in f ==> sendOk)
  {
  }

  /** Disable: in an enabled group the service is disabled, and stopped if it was running, enabled and
      could be told so. */
  lemma DisableExactly(f: Flags, groupDisabled: bool, sendOk: bool)
    requires Consistent(f)
    ensures var r := Disable(f, groupDisabled, sendOk);
            && (Disabled in r <==> Disabled in f || !groupDisabled)
            && (Enabled in r <==> Enabled in f && groupDisabled)
            && (Stopping in r <==> Stopping in f || (!groupDisabled && Enabled in f && Running in f && sendOk))
            && OnlyChanges(f, r, {Disabled, Enabled, Stopping})
  {
  }

  /** Enable: in an enabled group the service is enabled, and started if it was disabled, is stopped and
      not of the wait kind, and its command succeeds. It fails in a disabled group, and if that command
      fails. */
  lemma EnableExactly(f: Flags, groupDisabled: bool, systemOk: bool)
    requires Consistent(f)
    ensures var r := Enable(f, groupDisabled, systemOk);
            var starts := !groupDisabled && Disabled in f && IsStopped(f) && systemOk && Wait !in f;
            && (Enabled in r <==> Enabled in f || !groupDisabled)
            && (Disabled in r <==> Disabled in f && groupDisabled)
            && (Started in r <==> Started in f || starts) && (IsStopped(r) <==> IsStopped(f) && !starts)
            && (!starts ==> (Stopped in r <==> Stopped in f))
            && OnlyChanges(f, r, {Enabled, Disabled, Started, Stopped, AdminStopped})
    ensures EnableOk(f, groupDisabled, systemOk) <==> !groupDisabled && (Disabled in f && IsStopped(f) ==> systemOk)
  {
  }

  /** Attach: a started service, or one stopped by itself, is running and neither started nor stopped. */
  lemma AttachExactly(f: Flags)
    requires Consistent(f) && Attachable(f)
    ensures var r := Attach(f);
            Running in r && Started !in r && Stopped !in r && OnlyChanges(f, r, {Running, Started, Stopped})
  {
  }

  /** Detach: the service is down, stopped by an operator if one had asked for it; or started at once,
      exactly if a restart was pending and it can be started. */
  lemma DetachExactly(f: Flags, systemOk: bool)
    requires Consistent(f) && Running in f
    ensures var r := Detach(f, systemOk);
            var starts := RestartPending in f && Enabled in f && systemOk && Wait !in f;
            && Running !in r && Stopping !in r && AdminStopping !in r && RestartPending !in r
            && (Started in r <==> starts)
            && (AdminStopped in r <==> !starts && AdminStopping in f)
            && (Stopped in r <==> !starts && AdminStopping !in f)
            && OnlyChanges(f, r, {Running, Stopping, AdminStopping, RestartPending, Started, Stopped, AdminStopped})
  {
  }

  /** The monitor starts exactly the enabled respawn services that stopped by themselves. */
  lemma MonitorExactly(f: Flags, systemOk: bool)
    requires Consistent(f)
    ensures var r := Monitor(f, systemOk);
            var starts := Respawn in f && Stopped in f && Enabled in f && systemOk && Wait !in f;
            && (Started in r <==> Started in f || starts) && (Stopped in r <==> Stopped in f && !starts)
            && OnlyChanges(f, r, {Started, Stopped})
  {
  }

  /** Disabling a running enabled service of an enabled group tells it to stop exactly if it can be
      reached; either way, once its connection is lost it is stopped and disabled, even if a restart
      was pending. */
  lemma DisableTakesDown(f: Flags, sendOk: bool, systemOk: bool)
    requires Consistent(f) && Running in f && Enabled in f
    ensures var r := Disable(f, false, sendOk); var d := Detach(r, systemOk);
            && (Stopping in r <==> sendOk || Stopping in f) && Running in r && Disabled in r
            && IsStopped(d) && Disabled in d && Started !in d && Running !in d
  {
    DisableExactly(f, false, sendOk);
    DetachExactly(Disable(f, false, sendOk), systemOk);
  }
}
