/** What the lifecycle of uksmd's main guarantees, stated over MainRun. */
module Lifecycle {
  import opened Ksm
  import opened Scan
  import opened Daemon

  /** The scans of consecutive stretches of cycles are the scans of each
      stretch in turn. */
  lemma {:induction false} ScansAppend(a: seq<Cycle>, b: seq<Cycle>, self: int, ctps: int)
    requires ctps > 0
    ensures Scans(a + b, self, ctps) == Scans(a, self, ctps) + Scans(b, self, ctps)
  {
    if b == [] {
      assert a + b == a;
    } else {
      var binit, last := b[..|b| - 1], b[|b| - 1];
      var tail := ScanEvents(last.candidates, self, last.nowSec, ctps);
      assert (a + b)[..|a + b| - 1] == a + binit;
      assert (a + b)[|a + b| - 1] == last;
      assert Scans(a + b, self, ctps) == Scans(a + binit, self, ctps) + tail;
      assert Scans(b, self, ctps) == Scans(binit, self, ctps) + tail;
      ScansAppend(a, binit, self, ctps);
    }
  }

  /** A caller that is not root gets EACCES and the switch is never written. */
  lemma NonRootNeverTouchesSwitch(env: Env, init: bool)
    requires env.ctps > 0 && env.uid != 0
    ensures MainRun(env).status == Exited(EACCES)
    ensures MainRun(env).trace == []
    ensures SwitchAfter(init, MainRun(env).trace) == init
  {
  }

  /** When ksm_ctl(true) fails, main exits with its errno, makes no other
      call (no disable, no advise) and leaves the switch as it was. */
  lemma FailedEnableExits(env: Env, init: bool)
    requires env.ctps > 0 && env.uid == 0 && CtlRet(env.enable) != 0
    ensures MainRun(env).status == Exited(CtlRet(env.enable))
    ensures MainRun(env).trace == [CtlCall(true, CtlRet(env.enable))]
    ensures Disables(MainRun(env).trace) == 0
    ensures SwitchAfter(init, MainRun(env).trace) == init
  {
    var t := MainRun(env).trace;
    assert t[..0] == [];
  }

  /** After a successful enable, every exit from main makes exactly one
      ksm_ctl(false) call, as its last call, and exits with what that call
      returned; a run still inside the loop has made none. */
  lemma {:induction false} DisableExactlyOnce(env: Env)
    requires env.ctps > 0 && env.uid == 0 && CtlRet(env.enable) == 0
    ensures var r := MainRun(env);
            Disables(r.trace) == (if r.status.Exited? then 1 else 0)
    ensures var r := MainRun(env);
            r.status.Exited? ==>
              r.status.code == CtlRet(env.disable)
              && r.trace[|r.trace| - 1] == CtlCall(false, CtlRet(env.disable))
  {
    var on, scans := [CtlCall(true, 0)], ServedScans(env);
    var r := MainRun(env);
    MainRunShape(env);
    assert Disables(on) == 0 by { assert on[..0] == []; }
    DisablesAdvise(on, scans);
    if r.status.Exited? {
      assert r.trace[..|r.trace| - 1] == on + scans;
    } else {
      assert r.trace == on + scans;
    }
  }

  /** With the enable first, the switch is on after every prefix of the
      enable followed by advise calls. */
  lemma {:induction false} OnThroughAdvice(init: bool, s: seq<Event>)
    requires AllAdvise(s)
    ensures forall i :: 1 <= i <= |s| + 1 ==> SwitchAfter(init, ([CtlCall(true, 0)] + s)[..i])
  {
    var on := [CtlCall(true, 0)];
    assert SwitchAfter(init, on);
    forall i | 1 <= i <= |s| + 1
      ensures SwitchAfter(init, (on + s)[..i])
    {
      var si := s[..i - 1];
      assert (on + s)[..i] == on + si;
      assert AllAdvise(si) by {
        forall j | 0 <= j < |si| ensures si[j].AdviseCall? { assert si[j] == s[j]; }
      }
      SwitchAfterAdvise(init, on, si);
    }
  }

  /** The switch is on from a successful enable until the disable: after
      every prefix of the calls that starts with the enable and stops short
      of the last call, and after all of them while the daemon is still
      running. Once main has exited, the switch is left on only when the
      disable failed. */
  lemma {:induction false} SwitchOnUntilDisable(env: Env, init: bool)
    requires env.ctps > 0 && env.uid == 0 && CtlRet(env.enable) == 0
    ensures var t := MainRun(env).trace;
            forall i :: 1 <= i < |t| ==> SwitchAfter(init, t[..i])
    ensures MainRun(env).status == StillRunning ==> SwitchAfter(init, MainRun(env).trace)
    ensures MainRun(env).status.Exited? ==>
              (SwitchAfter(init, MainRun(env).trace) <==> MainRun(env).status.code != 0)
  {
    var on, s := [CtlCall(true, 0)], ServedScans(env);
    var t := MainRun(env).trace;
    MainRunShape(env);
    SwitchAfterRun(env, init);
    OnThroughAdvice(init, s);
    forall i | 1 <= i < |t|
      ensures SwitchAfter(init, t[..i])
    {
      assert t[..i] == (on + s)[..i];
    }
  }

  /** No advise call is ever made while the switch is off: every advise
      call in any run comes after a successful enable and before the
      disable. */
  lemma AdviseOnlyWhileOn(env: Env, init: bool)
    requires env.ctps > 0
    ensures var t := MainRun(env).trace;
            forall i :: 0 <= i < |t| && t[i].AdviseCall? ==> SwitchAfter(init, t[..i])
  {
    var t := MainRun(env).trace;
    if env.uid == 0 && CtlRet(env.enable) == 0 {
      SwitchOnUntilDisable(env, init);
      DisableExactlyOnce(env);
      assert t[0] == CtlCall(true, 0);
    }
  }

  /** A failure to block the signals still turns the switch off, no scan
      happens, and the errno of sigprocmask is replaced by the result of
      ksm_ctl(false) as the exit status. */
  lemma BlockFailureStillDisables(env: Env)
    requires env.ctps > 0 && env.uid == 0 && CtlRet(env.enable) == 0 && env.block.MaskFailed?
    ensures MainRun(env).status == Exited(CtlRet(env.disable))
    ensures MainRun(env).trace == [CtlCall(true, 0), CtlCall(false, CtlRet(env.disable))]
  {
  }

  /** A cycle whose wait does not leave the loop moves the first leaving
      cycle one further on. */
  lemma FirstExitCons(c: Cycle, cs: seq<Cycle>)
    requires !LeavesLoop(c.wait)
    ensures FirstExit([c] + cs) == 1 + FirstExit(cs)
  {
    assert ([c] + cs)[1..] == cs;
  }

  /** The scans of c followed by cs are c's scan followed by the scans of cs. */
  lemma ScansCons(c: Cycle, cs: seq<Cycle>, self: int, ctps: int)
    requires ctps > 0
    ensures Scans([c] + cs, self, ctps) == ScanEvents(c.candidates, self, c.nowSec, ctps) + Scans(cs, self, ctps)
  {
    assert Scans([c], self, ctps) == ScanEvents(c.candidates, self, c.nowSec, ctps) by {
      assert [c][..0] == [];
    }
    ScansAppend([c], cs, self, ctps);
  }

  /** A wait that does not leave the loop (the timeout, any other errno, any
      other signal) is followed by a fresh scan cycle: the run over
      [c] + cycles is c's scan followed by the run over cycles. */
  lemma {:induction false} OtherWaitRescans(env: Env, c: Cycle)
    requires env.ctps > 0 && env.block.MaskOk? && !LeavesLoop(c.wait)
    ensures var r, r' := Serving(env), Serving(env.(cycles := [c] + env.cycles));
            r'.status == r.status && r'.blocked == r.blocked
            && r'.trace == ScanEvents(c.candidates, env.self, c.nowSec, env.ctps) + r.trace
  {
    var cs := env.cycles;
    var k := FirstExit(cs);
    FirstExitCons(c, cs);
    if k == |cs| {
      ScansCons(c, cs, env.self, env.ctps);
    } else {
      assert ([c] + cs)[..k + 2] == [c] + cs[..k + 1];
      ScansCons(c, cs[..k + 1], env.self, env.ctps);
    }
  }

  /** A wait that returns SIGINT, SIGTERM, EINVAL or EINTR ends the loop
      right after its cycle's scan: whatever the later cycles would have
      held, the run restores the mask and turns the switch off. */
  lemma {:induction false} LeavingWaitStops(env: Env, c: Cycle)
    requires env.ctps > 0 && env.block.MaskOk? && LeavesLoop(c.wait)
    ensures Serving(env.(cycles := [c] + env.cycles))
            == Run(Exited(CtlRet(env.disable)),
                   ScanEvents(c.candidates, env.self, c.nowSec, env.ctps) + [CtlCall(false, CtlRet(env.disable))],
                   env.restore.MaskFailed?)
  {
    var cs := [c] + env.cycles;
    assert FirstExit(cs) == 0;
    assert cs[..1] == [c];
    assert Scans([c], env.self, env.ctps) == ScanEvents(c.candidates, env.self, c.nowSec, env.ctps) by {
      assert [c][..0] == [];
    }
  }

  /** A SIGINT or SIGTERM during the idle wait, with a disable that works,
      ends the daemon with exit status 0 after exactly one disable, and the
      switch off. */
  lemma CleanShutdown(env: Env, init: bool)
    requires env.ctps > 0 && env.uid == 0 && CtlRet(env.enable) == 0 && env.block.MaskOk?
    requires FirstExit(env.cycles) < |env.cycles|
    requires env.cycles[FirstExit(env.cycles)].wait in {Caught(SIGINT), Caught(SIGTERM)}
    requires CtlRet(env.disable) == 0
    ensures MainRun(env).status == Exited(0)
    ensures Disables(MainRun(env).trace) == 1
    ensures !SwitchAfter(init, MainRun(env).trace)
  {
    DisableExactlyOnce(env);
    SwitchOnUntilDisable(env, init);
  }
}
