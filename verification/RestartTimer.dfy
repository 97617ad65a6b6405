/** The daily restart timer of a service group (mgmt/fhmgr/fh_mgmt_service.c): fh_mgmt_sg_restart_time
    sets a tick counter, and fh_mgmt_sg_timers, called once a second, advances it. */
module RestartTimers {
  import opened Basics

  const MAX_SECS_PER_DAY: nat := 24 * 60 * 60

  /** The counter set at second now of the day for restart time rt, taken as the end of the day if later. */
  function StartTicks(now: nat, rt: nat): nat
    requires now < MAX_SECS_PER_DAY
  {
    if now <= Clamp(rt) then MAX_SECS_PER_DAY + now - Clamp(rt) else now - Clamp(rt)
  }

  function Clamp(rt: nat): nat { if rt > MAX_SECS_PER_DAY then MAX_SECS_PER_DAY else rt }

  /** One timer call: the 32-bit counter advances, and at the deadline fires and starts over. */
  function Fires(ticks: nat): bool { (ticks + 1) % UINT32 == MAX_SECS_PER_DAY }

  function Next(ticks: nat): nat { if Fires(ticks) then 0 else (ticks + 1) % UINT32 }

  /** The counter after n timer calls. */
  function After(ticks: nat, n: nat): nat { if n == 0 then ticks else Next(After(ticks, n - 1)) }

  predicate FiresAt(ticks: nat, n: nat)
    requires n > 0
  {
    Fires(After(ticks, n - 1))
  }

  lemma {:induction false} WithinDay(ticks: nat, n: nat)
    requires ticks < MAX_SECS_PER_DAY
    ensures After(ticks, n) == (ticks + n) % MAX_SECS_PER_DAY
    ensures n > 0 ==> (FiresAt(ticks, n) <==> (ticks + n) % MAX_SECS_PER_DAY == 0)
  {
    hide After, Fires, Next;
    if n == 0 {
      AfterNext(ticks, 0);
    } else {
      WithinDay(ticks, n - 1);
      AfterNext(ticks, n - 1);
      NextWithinDay(After(ticks, n - 1));
      NextRemainder(ticks + n - 1);
    }
  }

  lemma NextWithinDay(t: nat)
    requires t < MAX_SECS_PER_DAY
    ensures Fires(t) <==> t == MAX_SECS_PER_DAY - 1
    ensures Next(t) == if t == MAX_SECS_PER_DAY - 1 then 0 else t + 1
  {
  }

  lemma NextRemainder(a: nat)
    ensures var d := MAX_SECS_PER_DAY; (a + 1) % d == if a % d == d - 1 then 0 else a % d + 1
  {
  }

  /** Started at the deadline itself, the counter runs through the whole 32-bit range first. */
  lemma {:induction false} PastDeadline(n: nat)
    requires n <= UINT32 - MAX_SECS_PER_DAY
    ensures After(MAX_SECS_PER_DAY, n) == (MAX_SECS_PER_DAY + n) % UINT32
    ensures n > 0 ==> !FiresAt(MAX_SECS_PER_DAY, n)
  {
    if n > 0 { PastDeadline(n - 1); }
  }

  lemma {:induction false} AfterSum(ticks: nat, a: nat, b: nat)
    ensures After(After(ticks, a), b) == After(ticks, a + b)
  {
    if b > 0 { AfterSum(ticks, a, b - 1); }
  }

  lemma WrapsAround(n: nat)
    requires n > 0
    ensures FiresAt(MAX_SECS_PER_DAY, n) <==> n >= UINT32 && (n - UINT32) % MAX_SECS_PER_DAY == 0
  {
    var w := UINT32 - MAX_SECS_PER_DAY;
    if n <= w {
      PastDeadline(n);
    } else {
      PastDeadline(w);
      AfterSum(MAX_SECS_PER_DAY, w, n - w - 1);
      WithinDay(0, n - w);
      assert FiresAt(MAX_SECS_PER_DAY, n) == FiresAt(0, n - w);
      if n >= UINT32 { Congruent(n - UINT32, 0, n - w); }
    }
  }

  /** The n-th second after now is rt of its day; set at rt itself, the timer is silent until the 32-bit
      counter has wrapped. */
  predicate DueAt(now: nat, rt: nat, n: nat)
    requires n > 0
  {
    if now != rt then (now + n) % MAX_SECS_PER_DAY == Clamp(rt) % MAX_SECS_PER_DAY
    else n >= UINT32 && (n - UINT32) % MAX_SECS_PER_DAY == 0
  }

  /** The n-th timer call after setting restart time rt at second now restarts the group exactly when it
      is due. */
  lemma RestartsOnTime(now: nat, rt: nat, n: nat)
    requires now < MAX_SECS_PER_DAY && n > 0
    ensures FiresAt(StartTicks(now, rt), n) <==> DueAt(now, rt, n)
  {
    if now == rt {
      WrapsAround(n);
    } else {
      var t := StartTicks(now, rt);
      WithinDay(t, n);
      Congruent(now + n, Clamp(rt), t + n);
    }
  }

  /** s is a - b up to a day: it is a multiple of a day exactly when a and b agree modulo a day. */
  lemma Congruent(a: nat, b: nat, s: nat)
    requires b <= MAX_SECS_PER_DAY && (s == a - b || s == a - b + MAX_SECS_PER_DAY)
    ensures s % MAX_SECS_PER_DAY == 0 <==> a % MAX_SECS_PER_DAY == b % MAX_SECS_PER_DAY
  {
    var d := MAX_SECS_PER_DAY;
    var b0 := if b == d then 0 else b;
    var qs, rs := s / d, s % d;
    var t := (if s == a - b then 0 else -1) + (if b == d then 1 else 0);
    var carry := if rs + b0 >= d then 1 else 0;
    assert a == (qs + t + carry) * d + (rs + b0 - carry * d);
    DayRemainder(a, qs + t + carry, rs + b0 - carry * d);
    DayRemainder(b, if b == d then 1 else 0, b0);
  }

  lemma DayRemainder(n: nat, q: int, r: int)
    requires 0 <= r < MAX_SECS_PER_DAY && n == q * MAX_SECS_PER_DAY + r
    ensures n % MAX_SECS_PER_DAY == r
  {
  }

  class RestartTimer {
    var armed: bool            // FH_MGMT_SG_RESTART
    var deadline: nat
    var restartTime: nat
    var ticks: nat

    ghost predicate Valid()
      reads this
    {
      armed ==> deadline == MAX_SECS_PER_DAY && ticks < UINT32
    }

    constructor ()
      ensures Valid() && !armed
    {
      armed, deadline, restartTime, ticks := false, 0, 0, 0;
    }

    /** fh_mgmt_sg_restart_time */
    method SetRestartTime(now: nat, restartTime: nat)
      requires Valid() && now < MAX_SECS_PER_DAY
      modifies this
      ensures Valid() && armed && ticks == StartTicks(now, restartTime)
    {
      if !armed {
        deadline := MAX_SECS_PER_DAY;
        armed := true;
      }
      var rt := restartTime;
      if rt > MAX_SECS_PER_DAY { rt := MAX_SECS_PER_DAY; }
      this.restartTime := rt;
      if now <= rt {
        ticks := deadline + now - rt;
      } else {
        ticks := now - rt;
      }
    }

    /** The restart part of fh_mgmt_sg_timers for one group. */
    method Tick() returns (restart: bool)
      requires Valid()
      modifies this`ticks
      ensures Valid() && (armed ==> restart == Fires(old(ticks)) && ticks == Next(old(ticks)))
      ensures !armed ==> !restart && ticks == old(ticks)
    {
      restart := false;
      if armed {
        ticks := (ticks + 1) % UINT32;
        if ticks == deadline {
          restart := true;
          ticks := 0;
        }
      }
    }
  }

  /** n seconds of a timer set at second now: the calls that restarted the group. */
  method RunTimer(now: nat, rt: nat, n: nat) returns (restarts: seq<bool>)
    requires now < MAX_SECS_PER_DAY
    ensures |restarts| == n && forall i :: 0 <= i < n ==> (restarts[i] <==> DueAt(now, rt, i + 1))
  {
    var timer := new RestartTimer();
    timer.SetRestartTime(now, rt);
    ghost var t := timer.ticks;
    restarts := [];
    AfterNext(t, 0);
    for k := 0 to n
      invariant fresh(timer) && timer.Valid() && timer.armed && timer.ticks == After(t, k)
      invariant |restarts| == k && forall i :: 0 <= i < k ==> restarts[i] == FiresAt(t, i + 1)
    {
      hide After;
      AfterNext(t, k);
      var fired := timer.Tick();
      restarts := restarts + [fired];
    }
    forall i | 0 <= i < n ensures restarts[i] <==> DueAt(now, rt, i + 1) {
      RestartsOnTime(now, rt, i + 1);
    }
  }

  lemma AfterNext(t: nat, k: nat)
    ensures After(t, 0) == t && After(t, k + 1) == Next(After(t, k)) && FiresAt(t, k + 1) == Fires(After(t, k))
  {
  }
}
